/** The whole gateway as a transition system: its state, the events that can happen
    to it, and what each does. Every run of the program is a sequence of events. */
module Systems {
  import opened Bytes
  import opened Buffers
  import opened Timers
  import opened Tokens
  import opened StringStores
  import opened Devices

  /** Minimum time between two commands, over all clients, in microseconds. */
  const COMMAND_PACE: nat := 500_000

  const EX_NORMAL: int := 1

  // ---- Histories ----

  /** Bytes handed to a queue that had so much room; what fitted is queued. */
  datatype Delivery = Delivery(bytes: seq<byte>, room: nat) {
    function Fitted(): seq<byte> {
      Fit(bytes, room)
    }

    predicate Whole() {
      |bytes| <= room
    }
  }

  function Offers(ds: seq<Delivery>): seq<byte> {
    if ds == [] then [] else Offers(ds[..|ds| - 1]) + ds[|ds| - 1].bytes
  }

  function Deliveries(ds: seq<Delivery>): seq<byte> {
    if ds == [] then [] else Deliveries(ds[..|ds| - 1]) + ds[|ds| - 1].Fitted()
  }

  /** What happened on the connection in a slot since it was accepted: bytes received
      and commands taken from them, chunks broadcast to it and bytes written. `moved`
      and `commands` are the lengths of the global histories at that time. */
  datatype ConnLog = ConnLog(
    received: seq<byte>,
    taken: seq<seq<byte>>,
    chunks: seq<Delivery>,
    written: seq<byte>,
    moved: nat,
    commands: nat)

  /** A command sent to the serial device: from which slot, with what room in its
      transmit buffer, and when. */
  datatype Command = Command(sent: Delivery, slot: nat, tick: Tick)

  /** A byte written to the serial port. */
  datatype WireByte = WireByte(b: byte, tick: Tick)

  function CommandTicks(commands: seq<Command>): seq<Tick> {
    seq(|commands|, i requires 0 <= i < |commands| => commands[i].tick)
  }

  function WireTicks(wire: seq<WireByte>): seq<Tick> {
    seq(|wire|, i requires 0 <= i < |wire| => wire[i].tick)
  }

  /** The commands themselves. */
  function Texts(commands: seq<Command>): seq<seq<byte>> {
    seq(|commands|, i requires 0 <= i < |commands| => commands[i].sent.bytes)
  }

  /** The lengths of the serial histories when its buffers were last emptied. */
  datatype Mark = Mark(read: nat, moved: nat, commands: nat, wire: nat)

  /** The serial device: bytes read from it, bytes moved on to the clients, commands
      sent to it and bytes written to it. */
  datatype Log = Log(
    read: seq<byte>,
    moved: seq<byte>,
    commands: seq<Command>,
    wire: seq<WireByte>,
    marks: seq<Mark>)

  // ---- State ----

  datatype Slot = Slot(dev: Dev, log: ConnLog)

  datatype Sys = Sys(
    slots: seq<Slot>,
    copy: Ring,
    last: Timer,
    now: nat,
    os: set<int>,
    log: Log,
    calls: seq<Call>)

  const NO_LOG := ConnLog([], [], [], [], 0, 0)

  /** The serial device in slot 0, then a listener per address. */
  function Start(bufsize: nat, listeners: nat, now: nat): Sys {
    Sys([Slot(SerialDev(bufsize, now), NO_LOG)] + seq(listeners, _ => Slot(ListenDev(bufsize), NO_LOG)),
        Ring(2 * bufsize, []), Timer(0, NEVER), now, {}, Log([], [], [], [], [Mark(0, 0, 0, 0)]), [])
  }

  // ---- Events ----

  datatype Event =
    | Masks(i: nat, opening: Opening, time: nat)
    | Read(i: nat, read: ReadResult)
    | Write(i: nat, write: WriteResult, check: nat, end: nat)
    | Except(i: nat)
    | Accept(i: nat, fd: int)
    | Shut(i: nat)
    | Cycle(ticks: seq<Tick>)

  ghost predicate TimeOk(from: nat, to: nat) {
    from <= to < CLOCK_LIMIT
  }

  ghost predicate TicksOk(now: nat, ticks: seq<Tick>) {
    && (forall k :: 0 <= k < |ticks| ==> now <= ticks[k].check <= ticks[k].end < CLOCK_LIMIT)
    && (forall j, k :: 0 <= j < k < |ticks| ==> ticks[j].end <= ticks[k].check)
  }

  /** What the environment can do next. */
  ghost predicate Enabled(s: Sys, e: Event) {
    match e
    case Masks(i, o, time) =>
      i < |s.slots| && OpeningOk(o, s.os) && TimeOk(s.now, time)
    case Read(i, res) =>
      && i < |s.slots| && !s.slots[i].dev.listener
      && (res.Data? ==> 0 < |res.bytes| <= s.slots[i].dev.rbuf.Available())
    case Write(i, res, check, end) =>
      && i < |s.slots| && TimeOk(s.now, check) && TimeOk(check, end)
      && (res.Wrote? ==> res.len <= |Offered(s.slots[i].dev)|)
    case Except(i) => i < |s.slots|
    case Accept(i, fd) =>
      && i < |s.slots| && s.slots[i].dev.listener
      && s.slots[i].dev.fd != NO_FD && (fd != NO_FD ==> FreshFd(fd, s.os))
    case Shut(i) => i < |s.slots|
    case Cycle(ticks) => |ticks| == |s.slots| && TicksOk(s.now, ticks)
  }

  function SetDev(s: Sys, i: nat, r: DevOs): Sys
    requires i < |s.slots|
  {
    s.(slots := s.slots[i := s.slots[i].(dev := r.dev)], os := r.os)
  }

  function SetLog(s: Sys, i: nat, log: ConnLog): Sys
    requires i < |s.slots|
  {
    s.(slots := s.slots[i := s.slots[i].(log := log)])
  }

  // ---- Handlers ----

  function DoRead(s: Sys, i: nat, res: ReadResult): Sys
    requires i < |s.slots|
  {
    var d, l := s.slots[i].dev, s.slots[i].log;
    var t := SetDev(s, i, ReadDev(d, s.os, res));
    if Reads(d, res) then
      var u := SetLog(t, i, l.(received := l.received + res.bytes));
      if i == 0 then u.(log := u.log.(read := u.log.read + res.bytes)) else u
    else if i == 0 && d.fd != NO_FD then t.(log := Marked(t.log))
    else t
  }

  /** The serial buffers were emptied: a new epoch begins. */
  function Marked(log: Log): Log {
    log.(marks := log.marks + [Mark(|log.read|, |log.moved|, |log.commands|, |log.wire|)])
  }

  function DoWrite(s: Sys, i: nat, res: WriteResult, check: nat, end: nat): Sys
    requires i < |s.slots|
  {
    var d, l := s.slots[i].dev, s.slots[i].log;
    var bytes := WrittenBy(d, res, check);
    var t := SetDev(s, i, WriteDev(d, s.os, res, check, end)).(now := end);
    var u := SetLog(t, i, l.(written := l.written + bytes));
    if i == 0 then u.(log := u.log.(wire := u.log.wire + OnWire(bytes, check, end))) else u
  }

  function OnWire(bytes: seq<byte>, check: nat, end: nat): seq<WireByte> {
    seq(|bytes|, i requires 0 <= i < |bytes| => WireByte(bytes[i], Tick(check, end)))
  }

  // ---- Slots ----

  /** The first inactive slot from `k` on, or the end of the array. */
  function FreeSlot(slots: seq<Slot>, k: nat): (i: nat)
    ensures k <= |slots| ==> k <= i <= |slots|
    ensures k <= i < |slots| ==> slots[i].dev.state.Inactive?
    ensures forall j :: k <= j < i && j < |slots| ==> !slots[j].dev.state.Inactive?
    decreases |slots| - k
  {
    if k >= |slots| then |slots|
    else if slots[k].dev.state.Inactive? then k
    else FreeSlot(slots, k + 1)
  }

  /** Take over a free slot, never slot 0, or append one. */
  function Place(slots: seq<Slot>, slot: Slot): seq<Slot> {
    var i := FreeSlot(slots, 1);
    if i < |slots| then slots[i := slot] else slots + [slot]
  }

  function DoAccept(s: Sys, i: nat, fd: int): Sys
    requires i < |s.slots|
  {
    if fd == NO_FD then s.(calls := s.calls + [AcceptCall(s.slots[i].dev.fd, NO_FD)])
    else
      var log := NO_LOG.(moved := |s.log.moved|, commands := |s.log.commands|);
      s.(slots := Place(s.slots, Slot(AcceptedDev(fd, s.slots[i].dev.bufsize), log)), os := s.os + {fd},
         calls := s.calls + [AcceptCall(s.slots[i].dev.fd, fd)])
  }

  function DoShut(s: Sys, i: nat): Sys
    requires i < |s.slots|
  {
    if s.slots[i].dev.state.Rank() > Closed.Rank()
    then SetDev(s, i, CloseDev(s.slots[i].dev, s.os, IOFLAG_INACTIVE)) else s
  }

  // ---- The process cycle ----

  /** How many bytes of serial data there are to move. */
  function SerialBytes(s: Sys): seq<byte>
    requires |s.slots| > 0
  {
    Movable(s.slots[0].dev, s.copy.Available())
  }

  function BeginCycle(s: Sys): Sys
    requires |s.slots| > 0
  {
    var d, bytes := s.slots[0].dev, SerialBytes(s);
    SetDev(s, 0, DevOs(d.(rbuf := d.rbuf.Drop(|bytes|)), s.os)).(copy := s.copy.Put(bytes))
  }

  /** Serial data is copied to a connection, as much as fits. */
  function Broadcast(slot: Slot, chunk: seq<byte>): Slot {
    if chunk == [] then slot
    else
      Slot(slot.dev.(tbuf := slot.dev.tbuf.Put(chunk)),
           slot.log.(chunks := slot.log.chunks + [Delivery(chunk, slot.dev.tbuf.Available())]))
  }

  /** Received bytes are collected in the line buffer. */
  function Pull(d: Dev): Dev {
    if d.linebuf.None? then d
    else d.(linebuf := Some(d.linebuf.value + d.rbuf.contents), rbuf := d.rbuf.Drop(|d.rbuf.contents|))
  }

  /** The command a slot may send at a time: none before the pace is over. */
  function NextCommand(s: Sys, k: nat, check: nat): Option<seq<byte>>
    requires k < |s.slots|
  {
    var linebuf := s.slots[k].dev.linebuf;
    if !s.last.Expired(check) || linebuf.None? then None
    else
      match NextLength(linebuf.value, NEWLINE)
      case None => None
      case Some(len) => Some(linebuf.value[..len])
  }

  function SendCommand(s: Sys, k: nat, tick: Tick): Sys
    requires 0 < k < |s.slots|
  {
    match NextCommand(s, k, tick.check)
    case None => s.(now := tick.end)
    case Some(bytes) =>
      var serial, slot := s.slots[0], s.slots[k];
      var room := if serial.dev.state.IsOpen() then serial.dev.tbuf.Available() else 0;
      var sender := Slot(
        slot.dev.(linebuf := Some(Consumed(slot.dev.linebuf.value, |bytes|))),
        slot.log.(taken := slot.log.taken + [bytes]));
      s.(slots := s.slots[0 := serial.(dev := QueueDev(serial.dev, bytes))][k := sender],
         last := Started(RIGHT_NOW, COMMAND_PACE, tick.end),
         now := tick.end,
         log := s.log.(commands := s.log.commands + [Command(Delivery(bytes, room), k, tick)]))
  }

  function ServeSlot(s: Sys, k: nat, len: nat, tick: Tick): Sys
    requires 0 < k < |s.slots|
  {
    if s.slots[k].dev.listener then s.(now := tick.end)
    else
      var slot := Broadcast(s.slots[k], Fit(s.copy.contents, len));
      SendCommand(s.(slots := s.slots[k := slot.(dev := Pull(slot.dev))]), k, tick)
  }

  function ServeFrom(s: Sys, k: nat, len: nat, ticks: seq<Tick>): (t: Sys)
    requires k > 0 && |ticks| == |s.slots|
    ensures |t.slots| == |s.slots|
    decreases |s.slots| - k
  {
    if k >= |s.slots| then s else ServeFrom(ServeSlot(s, k, len, ticks[k]), k + 1, len, ticks)
  }

  function EndCycle(s: Sys, bytes: seq<byte>): Sys {
    s.(copy := s.copy.Flushed(), log := s.log.(moved := s.log.moved + bytes))
  }

  predicate Running(s: Sys) {
    |s.slots| > 0 && !s.slots[0].dev.state.Inactive?
  }

  function DoCycle(s: Sys, ticks: seq<Tick>): Sys
    requires |ticks| == |s.slots|
  {
    if !Running(s) then s
    else
      var bytes := SerialBytes(s);
      EndCycle(ServeFrom(BeginCycle(s), 1, |bytes|, ticks), bytes)
  }

  /** The cycle ends the program when the serial device is gone or no slot holds a listener. */
  function CycleResult(s: Sys, rc: int): int {
    if !Running(s) || (forall k :: 1 <= k < |s.slots| ==> !s.slots[k].dev.listener)
    then EX_NORMAL else rc
  }

  // ---- Runs ----

  function Exec(s: Sys, e: Event): Sys
    requires Enabled(s, e)
  {
    match e
    case Masks(i, o, time) =>
      SetDev(s, i, MaskDev(s.slots[i].dev, s.os, o)).(now := time, calls := s.calls + MaskCalls(s.slots[i].dev, o))
    case Read(i, res) =>
      DoRead(s, i, res).(calls := s.calls + ReadCalls(s.slots[i].dev, res))
    case Write(i, res, check, end) =>
      DoWrite(s, i, res, check, end).(calls := s.calls + WriteCalls(s.slots[i].dev, res, check))
    case Except(i) => SetDev(s, i, ExceptDev(s.slots[i].dev, s.os))
    case Accept(i, fd) => DoAccept(s, i, fd)
    case Shut(i) => DoShut(s, i)
    case Cycle(ticks) => DoCycle(s, ticks)
  }

  ghost predicate Feasible(s: Sys, es: seq<Event>)
    decreases |es|, 0
  {
    es == [] || (Feasible(s, es[..|es| - 1]) && Enabled(Run(s, es[..|es| - 1]), es[|es| - 1]))
  }

  ghost function Run(s: Sys, es: seq<Event>): Sys
    requires Feasible(s, es)
    decreases |es|, 1
  {
    if es == [] then s else Exec(Run(s, es[..|es| - 1]), es[|es| - 1])
  }

  lemma RunSnoc(s: Sys, es: seq<Event>, e: Event)
    requires Feasible(s, es) && Enabled(Run(s, es), e)
    ensures Feasible(s, es + [e]) && Run(s, es + [e]) == Exec(Run(s, es), e)
  {
    assert (es + [e])[..|es + [e]| - 1] == es;
  }

  lemma RunOne(s: Sys, e: Event)
    requires Enabled(s, e)
    ensures Feasible(s, [e]) && Run(s, [e]) == Exec(s, e)
  {
    RunSnoc(s, [], e);
    assert [] + [e] == [e];
  }

  lemma RunConcatSnoc(s: Sys, es: seq<Event>, fs: seq<Event>, e: Event)
    requires Feasible(s, es) && Feasible(Run(s, es), fs) && Enabled(Run(Run(s, es), fs), e)
    requires Feasible(s, es + fs) && Run(s, es + fs) == Run(Run(s, es), fs)
    ensures Feasible(s, es + (fs + [e])) && Run(s, es + (fs + [e])) == Run(Run(s, es), fs + [e])
  {
    RunSnoc(s, es + fs, e);
    RunSnoc(Run(s, es), fs, e);
    assert es + (fs + [e]) == (es + fs) + [e];
  }

  lemma {:induction false} RunConcat(s: Sys, es: seq<Event>, fs: seq<Event>)
    requires Feasible(s, es) && Feasible(Run(s, es), fs)
    ensures Feasible(s, es + fs) && Run(s, es + fs) == Run(Run(s, es), fs)
  {
    if fs == [] {
      assert es + fs == es;
    } else {
      var front, last := fs[..|fs| - 1], fs[|fs| - 1];
      assert fs == front + [last];
      RunConcat(s, es, front);
      RunConcatSnoc(s, es, front, last);
    }
  }

  /** A state some run from some start leads to. The buffer size is at least 2. */
  ghost predicate Reachable(s: Sys, bufsize: nat) {
    exists listeners: nat, now: nat, es ::
      && bufsize >= 2 && 0 < now < CLOCK_LIMIT
      && Feasible(Start(bufsize, listeners, now), es)
      && s == Run(Start(bufsize, listeners, now), es)
  }

  lemma ReachableRun(s: Sys, es: seq<Event>, bufsize: nat)
    requires Reachable(s, bufsize) && Feasible(s, es)
    ensures Reachable(Run(s, es), bufsize)
  {
    var listeners: nat, now: nat, before :|
      && bufsize >= 2 && 0 < now < CLOCK_LIMIT
      && Feasible(Start(bufsize, listeners, now), before)
      && s == Run(Start(bufsize, listeners, now), before);
    RunConcat(Start(bufsize, listeners, now), before, es);
    assert Feasible(Start(bufsize, listeners, now), before + es);
  }

  lemma ReachableExec(s: Sys, e: Event, bufsize: nat)
    requires Reachable(s, bufsize) && Enabled(s, e)
    ensures Reachable(Exec(s, e), bufsize)
  {
    RunOne(s, e);
    ReachableRun(s, [e], bufsize);
  }

  lemma StartReachable(bufsize: nat, listeners: nat, now: nat)
    requires bufsize >= 2 && 0 < now < CLOCK_LIMIT
    ensures Reachable(Start(bufsize, listeners, now), bufsize)
  {
    assert Feasible(Start(bufsize, listeners, now), []);
  }

  /** The parts that only the process cycle touches are as they were. */
  ghost predicate SameApp(s: Sys, t: Sys) {
    t.copy == s.copy && t.last == s.last
  }

  /** An event at a slot, other than an accept, changes that device alone. */
  ghost predicate ChangesOnly(s: Sys, t: Sys, i: nat, r: DevOs, now: nat) {
    && i < |s.slots| == |t.slots| && t.os == r.os && t.now == now
    && t.slots[i].dev == r.dev
    && SameApp(s, t)
    && forall k :: 0 <= k < |s.slots| && k != i ==> t.slots[k].dev == s.slots[k].dev
  }

  lemma ReadChanges(s: Sys, i: nat, res: ReadResult)
    requires Enabled(s, Read(i, res))
    ensures ChangesOnly(s, Exec(s, Read(i, res)), i, ReadDev(s.slots[i].dev, s.os, res), s.now)
    ensures Exec(s, Read(i, res)).calls == s.calls + ReadCalls(s.slots[i].dev, res)
  {
  }

  lemma WriteChanges(s: Sys, i: nat, res: WriteResult, check: nat, end: nat)
    requires Enabled(s, Write(i, res, check, end))
    ensures ChangesOnly(s, Exec(s, Write(i, res, check, end)), i, WriteDev(s.slots[i].dev, s.os, res, check, end), end)
    ensures Exec(s, Write(i, res, check, end)).calls == s.calls + WriteCalls(s.slots[i].dev, res, check)
  {
  }

  lemma MasksChanges(s: Sys, i: nat, o: Opening, time: nat)
    requires Enabled(s, Masks(i, o, time))
    ensures ChangesOnly(s, Exec(s, Masks(i, o, time)), i, MaskDev(s.slots[i].dev, s.os, o), time)
    ensures Exec(s, Masks(i, o, time)).calls == s.calls + MaskCalls(s.slots[i].dev, o)
  {
  }

  lemma CloseChanges(s: Sys, i: nat)
    requires i < |s.slots|
    ensures ChangesOnly(s, Exec(s, Except(i)), i, ExceptDev(s.slots[i].dev, s.os), s.now)
    ensures ChangesOnly(s, Exec(s, Shut(i)), i,
      if s.slots[i].dev.state.Rank() > Closed.Rank() then CloseDev(s.slots[i].dev, s.os, IOFLAG_INACTIVE)
      else DevOs(s.slots[i].dev, s.os), s.now)
    ensures Exec(s, Except(i)).calls == Exec(s, Shut(i)).calls == s.calls
  {
  }

  lemma AcceptChanges(s: Sys, i: nat, fd: int)
    requires Enabled(s, Accept(i, fd))
    ensures var t, at := Exec(s, Accept(i, fd)), FreeSlot(s.slots, 1);
      && SameApp(s, t) && t.now == s.now
      && t.calls == s.calls + [AcceptCall(s.slots[i].dev.fd, fd)]
      && if fd == NO_FD then t == s.(calls := t.calls)
         else
           && at <= |s.slots| && at < |t.slots| && |t.slots| == (if at < |s.slots| then |s.slots| else |s.slots| + 1)
           && t.os == s.os + {fd}
           && t.slots[at].dev == AcceptedDev(fd, s.slots[i].dev.bufsize)
           && forall k :: 0 <= k < |s.slots| && k != at ==> t.slots[k].dev == s.slots[k].dev
  {
  }

  /** Sending a command changes the serial device, the sender, the timer and the clock. */
  lemma SendChanges(s: Sys, k: nat, tick: Tick)
    requires 0 < k < |s.slots|
    ensures var t, next := SendCommand(s, k, tick), NextCommand(s, k, tick.check);
      && |t.slots| == |s.slots| && t.copy == s.copy && t.os == s.os && t.calls == s.calls && t.now == tick.end
      && (forall j :: 0 < j < |s.slots| && j != k ==> t.slots[j].dev == s.slots[j].dev)
      && match next
         case None => t.slots == s.slots && t.last == s.last
         case Some(bytes) =>
           && t.slots[0].dev == QueueDev(s.slots[0].dev, bytes)
           && s.slots[k].dev.linebuf.Some?
           && t.slots[k].dev == s.slots[k].dev.(linebuf := Some(Consumed(s.slots[k].dev.linebuf.value, |bytes|)))
           && t.last == Started(RIGHT_NOW, COMMAND_PACE, tick.end)
  {
  }

  /** Creating a listener at the start appends it: no slot is inactive yet. */
  lemma StartPlaces(bufsize: nat, listeners: nat, now: nat)
    ensures Place(Start(bufsize, listeners, now).slots, Slot(ListenDev(bufsize), NO_LOG)) ==
      Start(bufsize, listeners + 1, now).slots
  {
    var slots := Start(bufsize, listeners, now).slots;
    assert FreeSlot(slots, 1) == |slots|;
  }

  function DoBroadcast(s: Sys, k: nat, len: nat): Sys
    requires k < |s.slots|
  {
    s.(slots := s.slots[k := Broadcast(s.slots[k], Fit(s.copy.contents, len))])
  }

  function DoPull(s: Sys, k: nat): Sys
    requires k < |s.slots|
  {
    s.(slots := s.slots[k := s.slots[k].(dev := Pull(s.slots[k].dev))])
  }

  /** Serving a connection is copying to it, collecting from it, and sending for it. */
  lemma ServeInSteps(s: Sys, k: nat, len: nat, tick: Tick)
    requires 0 < k < |s.slots| && !s.slots[k].dev.listener
    ensures ServeSlot(s, k, len, tick) == SendCommand(DoPull(DoBroadcast(s, k, len), k), k, tick)
  {
    var slot := Broadcast(s.slots[k], Fit(s.copy.contents, len));
    assert s.slots[k := slot][k := slot.(dev := Pull(slot.dev))] == s.slots[k := slot.(dev := Pull(slot.dev))];
  }

  // ---- A cycle under way ----

  /** Mentioned where the rest of a cycle is to be looked at. */
  ghost predicate Rest(ticks: seq<Tick>) {
    true
  }

  /** `t` is what serving the slots below `k` made of `b`: completing the cycle from
      there completes it. */
  ghost predicate ServedTo(b: Sys, t: Sys, k: nat, len: nat, ticks: seq<Tick>)
    requires k > 0
  {
    && |t.slots| == |b.slots| && |ticks| == k
    && (forall j :: 0 <= j < |b.slots| ==> t.slots[j].dev.listener == b.slots[j].dev.listener)
    && forall rest {:trigger Rest(rest)} :: Rest(rest) && |ticks + rest| == |b.slots| ==>
         ServeFrom(b, 1, len, ticks + rest) == ServeFrom(t, k, len, ticks + rest)
  }

  lemma ServedStart(b: Sys, len: nat, tick: Tick)
    ensures ServedTo(b, b, 1, len, [tick])
  {
  }

  lemma ServeKeepsListeners(s: Sys, k: nat, len: nat, tick: Tick)
    requires 0 < k < |s.slots|
    ensures var t := ServeSlot(s, k, len, tick);
      && |t.slots| == |s.slots|
      && forall j :: 0 <= j < |s.slots| ==> t.slots[j].dev.listener == s.slots[j].dev.listener
  {
  }

  lemma ServedStep(b: Sys, t: Sys, k: nat, len: nat, ticks: seq<Tick>, tick: Tick)
    requires 0 < k < |b.slots| && ServedTo(b, t, k, len, ticks)
    ensures ServedTo(b, ServeSlot(t, k, len, tick), k + 1, len, ticks + [tick])
  {
    var u := ServeSlot(t, k, len, tick);
    ServeKeepsListeners(t, k, len, tick);
    forall rest | Rest(rest) && |ticks + [tick] + rest| == |b.slots|
      ensures ServeFrom(b, 1, len, ticks + [tick] + rest) == ServeFrom(u, k + 1, len, ticks + [tick] + rest)
    {
      assert Rest([tick] + rest) && ticks + [tick] + rest == ticks + ([tick] + rest);
    }
  }

  lemma ServedEnd(b: Sys, t: Sys, k: nat, len: nat, ticks: seq<Tick>)
    requires 0 < k == |b.slots| && ServedTo(b, t, k, len, ticks)
    ensures t == ServeFrom(b, 1, len, ticks)
  {
    assert Rest([]) && ticks + [] == ticks;
  }

  /** Besides, the clock was read in order, once or twice per slot. */
  ghost predicate Underway(b: Sys, t: Sys, k: nat, len: nat, ticks: seq<Tick>) {
    && 0 < k <= |b.slots| && ServedTo(b, t, k, len, ticks) && TicksOk(b.now, ticks) && b.now <= t.now
    && forall j :: 0 <= j < |ticks| ==> ticks[j].end <= t.now
  }

  ghost predicate NoListenerBelow(s: Sys, k: nat) {
    forall j :: 1 <= j < k && j < |s.slots| ==> !s.slots[j].dev.listener
  }

  /** Besides, the listeners met are counted. */
  ghost predicate Counted(b: Sys, t: Sys, k: nat, len: nat, ticks: seq<Tick>, listeners: nat) {
    && |t.slots| == |b.slots| && Underway(b, t, k, len, ticks)
    && (listeners == 0 <==> NoListenerBelow(b, k))
  }

  lemma CountedStart(b: Sys, len: nat)
    requires |b.slots| > 0 && b.now < CLOCK_LIMIT
    ensures Counted(b, b, 1, len, [Tick(b.now, b.now)], 0)
  {
    UnderwayStart(b, len);
  }

  lemma CountedEnd(b: Sys, t: Sys, k: nat, len: nat, ticks: seq<Tick>, listeners: nat)
    requires Counted(b, t, k, len, ticks, listeners) && k == |b.slots|
    ensures |ticks| == |b.slots| && TicksOk(b.now, ticks) && t == ServeFrom(b, 1, len, ticks)
    ensures listeners == 0 <==> NoListenerBelow(b, |b.slots|)
  {
    ServedEnd(b, t, k, len, ticks);
  }

  lemma CountedStep(b: Sys, t: Sys, k: nat, len: nat, ticks: seq<Tick>, listeners: nat, tick: Tick)
    requires Counted(b, t, k, len, ticks, listeners) && k < |b.slots|
    requires t.now <= tick.check <= tick.end < CLOCK_LIMIT
    ensures Counted(b, ServeSlot(t, k, len, tick), k + 1, len, ticks + [tick],
                    if t.slots[k].dev.listener then listeners + 1 else listeners)
  {
    UnderwayStep(b, t, k, len, ticks, tick);
    ServeKeepsListeners(t, k, len, tick);
  }

  lemma UnderwayStart(b: Sys, len: nat)
    requires |b.slots| > 0 && b.now < CLOCK_LIMIT
    ensures Underway(b, b, 1, len, [Tick(b.now, b.now)])
  {
    ServedStart(b, len, Tick(b.now, b.now));
  }

  lemma UnderwayStep(b: Sys, t: Sys, k: nat, len: nat, ticks: seq<Tick>, tick: Tick)
    requires Underway(b, t, k, len, ticks) && k < |b.slots|
    requires t.now <= tick.check <= tick.end < CLOCK_LIMIT
    ensures Underway(b, ServeSlot(t, k, len, tick), k + 1, len, ticks + [tick])
    ensures NoListenerBelow(b, k + 1) <==> NoListenerBelow(b, k) && !t.slots[k].dev.listener
  {
    ServedStep(b, t, k, len, ticks, tick);
    assert ServeSlot(t, k, len, tick).now == tick.end;
  }

  /** Ticks for a cycle in which the clock stands still. */
  function IdleTicks(s: Sys): (ticks: seq<Tick>)
    ensures |ticks| == |s.slots| && (s.now < CLOCK_LIMIT ==> TicksOk(s.now, ticks))
  {
    seq(|s.slots|, _ => Tick(s.now, s.now))
  }

  /** The cycle in one piece, from the state after moving the serial data. */
  lemma CycleInPieces(s: Sys, ticks: seq<Tick>)
    requires Running(s) && |ticks| == |s.slots|
    ensures EndCycle(ServeFrom(BeginCycle(s), 1, |SerialBytes(s)|, ticks), SerialBytes(s)) == DoCycle(s, ticks)
    ensures NoListenerBelow(BeginCycle(s), |s.slots|) <==>
      forall k :: 1 <= k < |s.slots| ==> !s.slots[k].dev.listener
    ensures BeginCycle(s).now == s.now && |BeginCycle(s).slots| == |s.slots|
  {
    var b := BeginCycle(s);
    assert forall j :: 0 <= j < |s.slots| ==> b.slots[j].dev.listener == s.slots[j].dev.listener;
  }
}
