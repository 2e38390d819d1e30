/** What the device functions of iodev.c, serial.c and nettcp.c do to one device and
    to the set of open descriptors. The outcome of each system call is an argument. */
module Devices {
  import opened Bytes
  import opened Buffers
  import opened Timers

  const NO_FD: int := -1
  /** Minimum time between two characters sent to the serial port, in microseconds. */
  const CHARACTER_PACING: nat := 5000
  const IOFLAG_NONE: nat := 0
  const IOFLAG_FLUSH: nat := 1
  const IOFLAG_INACTIVE: nat := 2

  /** The device states, in their order: IODEV_NONE up to IODEV_ACTIVE. */
  datatype DevState = Unopened | Inactive | Closed | Closing | Pending | Open | Connected | Active {
    function Rank(): nat {
      match this
      case Unopened => 0
      case Inactive => 1
      case Closed => 2
      case Closing => 3
      case Pending => 4
      case Open => 5
      case Connected => 6
      case Active => 7
    }

    predicate IsOpen() {
      Rank() >= Open.Rank()
    }
  }

  /** Which device functions are installed. */
  datatype Kind = SerialPort | Listener | Connection

  datatype Dev = Dev(
    kind: Kind,
    fd: int,
    listener: bool,
    state: DevState,
    bufsize: nat,
    rbuf: Ring,
    tbuf: Ring,
    linebuf: Option<seq<byte>>,
    pacer: Timer)

  /** A device together with the descriptors the process has open. */
  datatype DevOs = DevOs(dev: Dev, os: set<int>)

  // ---- Outcomes of system calls ----

  /** No descriptor, one that could not be set up, or a usable one. */
  datatype Opening = NoFd | Broken(fd: int) | Good(fd: int)

  datatype ReadResult = Data(bytes: seq<byte>) | Eof | ReadError

  datatype WriteResult = Wrote(len: nat) | WriteError

  /** A call that asked for a descriptor, for the serial port or a socket or by accepting on
      one, that set one up, or that moved data through one; with the answer, which for a
      descriptor may be -1. */
  datatype Call =
    | OpenCall(fd: int, port: bool)
    | SetUpCall(fd: int, ok: bool)
    | AcceptCall(on: int, fd: int)
    | ReadCall(fd: int, max: nat, read: ReadResult)
    | WriteCall(fd: int, bytes: seq<byte>, write: WriteResult)

  // ---- Creation ----

  function InitDev(kind: Kind, bufsize: nat): Dev {
    Dev(kind, NO_FD, bufsize == 0, Unopened, bufsize,
        Ring(bufsize, []), Ring(bufsize, []), None, Timer(0, NEVER))
  }

  function SerialDev(bufsize: nat, now: nat): Dev {
    InitDev(SerialPort, bufsize).(pacer := Started(RIGHT_NOW, 0, now))
  }

  /** A listener has no buffers of its own and records the size for accepted connections. */
  function ListenDev(bufsize: nat): Dev {
    InitDev(Listener, 0).(bufsize := bufsize)
  }

  function AcceptedDev(fd: int, bufsize: nat): Dev {
    InitDev(Connection, bufsize).(linebuf := Some([]), fd := fd, state := Connected)
  }

  /** What the creators of TCP devices make of a slot. */
  function CreatedDev(listen: bool, fd: int, bufsize: nat): Dev {
    if listen then ListenDev(bufsize) else AcceptedDev(fd, bufsize)
  }

  // ---- Close and open ----

  /** An accepted connection is never reopened: once closed its slot is free. */
  function Retired(d: Dev): Dev {
    if d.kind.Connection? && d.state.Closed? then d.(state := Inactive) else d
  }

  function CloseDev(d: Dev, os: set<int>, flags: nat): DevOs {
    match d.state
    case Unopened | Inactive | Closed => DevOs(Retired(d), os)
    case _ =>
      if !d.state.Pending? && flags % 2 == IOFLAG_FLUSH && d.tbuf.Available() > 0 then
        DevOs(d.(state := Closing), os)
      else
        DevOs(Retired(d.(fd := NO_FD, state := Closed)), os - {d.fd})
  }

  function OpenDev(d: Dev, os: set<int>, o: Opening): DevOs {
    var c := if d.state.IsOpen() then CloseDev(d, os, IOFLAG_NONE) else DevOs(d, os);
    match d.kind
    case Connection => c
    case Listener =>
      if c.dev.fd != NO_FD then c else Opened(c, o, IOFLAG_INACTIVE)
    case SerialPort => Opened(c, o, IOFLAG_NONE)
  }

  /** A descriptor that cannot be set up is closed again at once. */
  function Opened(c: DevOs, o: Opening, flags: nat): DevOs {
    match o
    case NoFd => DevOs(c.dev.(fd := NO_FD, state := Inactive), c.os)
    case Broken(fd) => CloseDev(c.dev.(fd := fd, state := Open), c.os + {fd}, flags)
    case Good(fd) => DevOs(c.dev.(fd := fd, state := Connected), c.os + {fd})
  }

  // ---- Select masks ----

  /** The three descriptor sets handed to select. */
  datatype Bits = Bits(r: set<int>, w: set<int>, x: set<int>) {
    function Without(fd: int): Bits {
      Bits(r - {fd}, w - {fd}, x - {fd})
    }
  }

  /** A call of select: how far it looks, at which sets, and its answer. */
  datatype SelectCall = SelectCall(nfds: int, asked: Bits, ready: int)

  datatype Masked = Masked(bits: Bits, active: bool)

  predicate SendOk(d: Dev, now: nat) {
    d.kind.SerialPort? ==> d.pacer.Expired(now)
  }

  function SetIf(bits: set<int>, fd: int, cond: bool): set<int> {
    if cond then bits + {fd} else bits
  }

  /** What setting the masks does to the three sets. */
  function MaskBits(d: Dev, now: nat, before: Bits): Masked {
    var b := if d.fd >= 0 then before.Without(d.fd) else before;
    match d.state
    case Unopened | Inactive | Closed => Masked(b, false)
    case Closing =>
      if d.kind.Listener? || d.tbuf.contents == [] then Masked(b, false)
      else Masked(Bits(b.r, SetIf(b.w, d.fd, SendOk(d, now)), SetIf(b.x, d.fd, SendOk(d, now))), true)
    case Pending =>
      Masked(Bits(b.r + {d.fd}, b.w, SetIf(b.x, d.fd, d.kind.Listener?)), true)
    case Open | Connected | Active =>
      if d.kind.Listener? then Masked(Bits(b.r + {d.fd}, b.w, b.x + {d.fd}), true)
      else
        Masked(Bits(SetIf(b.r, d.fd, d.rbuf.Available() > 0), SetIf(b.w, d.fd, d.tbuf.contents != []),
                    b.x + {d.fd}), true)
  }

  /** What setting the masks does to the device: it is opened when due, or closed when drained. */
  function MaskDev(d: Dev, os: set<int>, o: Opening): DevOs {
    match d.state
    case Unopened | Closed => OpenDev(d, os, o)
    case Closing =>
      if d.kind.Listener? || d.tbuf.contents != [] then DevOs(d, os) else CloseDev(d, os, IOFLAG_NONE)
    case _ => DevOs(d, os)
  }

  function OpenCalls(o: Opening, port: bool): seq<Call> {
    match o
    case NoFd => [OpenCall(NO_FD, port)]
    case Broken(fd) => [OpenCall(fd, port), SetUpCall(fd, false)]
    case Good(fd) => [OpenCall(fd, port), SetUpCall(fd, true)]
  }

  /** The calls made when setting the masks opens the device. */
  function MaskCalls(d: Dev, o: Opening): seq<Call> {
    if d.state in {Unopened, Closed} && !d.kind.Connection? && (d.kind.Listener? ==> d.fd == NO_FD)
    then OpenCalls(o, d.kind.SerialPort?) else []
  }

  // ---- Handlers ----

  predicate Reads(d: Dev, res: ReadResult) {
    d.fd != NO_FD && d.state.IsOpen() && res.Data?
  }

  /** End of file, or any error, drops what is buffered and closes the device. */
  function ReadDev(d: Dev, os: set<int>, res: ReadResult): DevOs {
    if d.fd == NO_FD then DevOs(d, os)
    else if Reads(d, res) then DevOs(d.(rbuf := d.rbuf.Put(res.bytes)), os)
    else CloseDev(d.(rbuf := d.rbuf.Flushed(), tbuf := d.tbuf.Flushed()), os, IOFLAG_INACTIVE)
  }

  /** The read handler asks its descriptor for as much as there is room for. */
  function ReadCalls(d: Dev, res: ReadResult): seq<Call> {
    if d.fd != NO_FD && d.state.IsOpen() then [ReadCall(d.fd, d.rbuf.Available(), res)] else []
  }

  /** Whether the write handler gets as far as writing: the serial port waits for its pacer. */
  predicate Writes(d: Dev, check: nat) {
    && d.fd != NO_FD
    && d.tbuf.contents != []
    && (d.kind.SerialPort? ==> d.pacer.Expired(check))
  }

  /** When the write handler of the serial port looks at the clock: to check the pacer, if it
      has an end and anything is queued, and to start it again after a write. */
  function WriteReadings(d: Dev, res: WriteResult, check: nat, end: nat): seq<nat> {
    (if d.fd != NO_FD && d.tbuf.contents != [] && d.pacer.ending != NEVER then [check] else []) +
    (if Writes(d, check) && res.Wrote? then [end] else [])
  }

  /** The bytes a write handler offers: all that is queued, or a single character. */
  function Offered(d: Dev): seq<byte> {
    Fit(d.tbuf.contents, if d.kind.SerialPort? then 1 else |d.tbuf.contents|)
  }

  function WriteCalls(d: Dev, res: WriteResult, check: nat): seq<Call> {
    if Writes(d, check) then [WriteCall(d.fd, Offered(d), res)] else []
  }

  /** Bytes that leave the device. */
  function WrittenBy(d: Dev, res: WriteResult, check: nat): seq<byte> {
    if Writes(d, check) && res.Wrote? then Fit(Offered(d), res.len) else []
  }

  function WriteDev(d: Dev, os: set<int>, res: WriteResult, check: nat, end: nat): DevOs {
    if !Writes(d, check) then DevOs(d, os)
    else if d.kind.SerialPort? then
      match res
      case WriteError => CloseDev(d, os, IOFLAG_NONE)
      case Wrote(len) =>
        DevOs(d.(tbuf := d.tbuf.Drop(len), pacer := Started(RIGHT_NOW, CHARACTER_PACING, end)), os)
    else
      match res
      case WriteError => CloseDev(d.(rbuf := d.rbuf.Flushed(), tbuf := d.tbuf.Flushed()), os, IOFLAG_NONE)
      case Wrote(len) => DevOs(d.(tbuf := d.tbuf.Drop(len)), os)
  }

  function ExceptDev(d: Dev, os: set<int>): DevOs {
    CloseDev(d, os, IOFLAG_NONE)
  }

  /** Queue bytes for transmission: refused when the device is not open, cut when it is full. */
  function QueueDev(d: Dev, bytes: seq<byte>): Dev {
    if d.state.IsOpen() then d.(tbuf := d.tbuf.Put(bytes)) else d
  }

  /** The pacer of a new serial device holds nothing back: its first character may be sent
      at any time. */
  lemma FirstCharacterMayBeSent(bufsize: nat, now: nat, later: nat)
    ensures SendOk(SerialDev(bufsize, now), later)
  {
    NoDurationIsExpired(RIGHT_NOW, now, later);
  }

  /** A device that is draining is not watched for input, for output only while any is
      pending and may be sent, and is closed when none is left. */
  lemma DrainingIsWatched(d: Dev, os: set<int>, o: Opening, now: nat, before: Bits)
    requires d.state.Closing? && !d.kind.Listener? && d.fd >= 0
    ensures var m, c := MaskBits(d, now, before), MaskDev(d, os, o);
      && d.fd !in m.bits.r
      && (d.fd in m.bits.w <==> d.tbuf.contents != [] && (d.kind.SerialPort? ==> d.pacer.Expired(now)))
      && (d.fd in m.bits.x <==> d.fd in m.bits.w)
      && (m.active <==> d.tbuf.contents != [])
      && (m.active ==> c == DevOs(d, os))
      && (!m.active ==> c.dev.fd == NO_FD && c.os == os - {d.fd})
      && m.bits.r - {d.fd} == before.r - {d.fd} && m.bits.w - {d.fd} == before.w - {d.fd}
  {
  }

  /** One that is about to come up is only watched for input, a listener for exceptions too. */
  lemma PendingIsWatched(d: Dev, os: set<int>, o: Opening, now: nat, before: Bits)
    requires d.state.Pending? && d.fd >= 0
    ensures var m := MaskBits(d, now, before);
      && m.active && d.fd in m.bits.r && d.fd !in m.bits.w && (d.fd in m.bits.x <==> d.kind.Listener?)
      && MaskDev(d, os, o) == DevOs(d, os)
  {
  }

  /** An open device queues all it was handed exactly when that fits. */
  lemma QueuesAllThatFits(d: Dev, bytes: seq<byte>)
    requires d.state.IsOpen()
    ensures |QueueDev(d, bytes).tbuf.contents| - |d.tbuf.contents| == |bytes| <==> |bytes| <= d.tbuf.Available()
  {
  }

  /** An open device that queues less than it was handed. */
  lemma QueueCutsShort() returns (d: Dev, bytes: seq<byte>)
    ensures d.state.IsOpen()
    ensures |QueueDev(d, bytes).tbuf.contents| - |d.tbuf.contents| < |bytes|
  {
    d, bytes := AcceptedDev(3, 2), [LF, LF];
  }

  /** Received bytes that can be moved on, into a buffer with so much room. */
  function Movable(d: Dev, room: nat): seq<byte> {
    if d.state.IsOpen() then Fit(d.rbuf.contents, room) else []
  }

  // ---- What every operation keeps ----

  /** A device between two operations. Closing, Pending and Open are only passed through. */
  ghost predicate DevOk(d: Dev, bufsize: nat) {
    && (d.listener <==> d.kind.Listener?)
    && d.bufsize == bufsize
    && d.rbuf.size == d.tbuf.size == (if d.listener then 0 else bufsize)
    && d.rbuf.Valid() && d.tbuf.Valid()
    && (d.linebuf.Some? <==> d.kind.Connection?)
    && d.state in {Unopened, Inactive, Closed, Connected}
    && (d.kind.Connection? ==> d.state in {Inactive, Connected})
    && (d.fd == NO_FD <==> d.state in {Unopened, Inactive, Closed})
    && d.fd >= NO_FD
  }

  /** The descriptor set changed exactly by what the device let go and took up. */
  ghost predicate FdStep(d: Dev, os: set<int>, r: DevOs) {
    && (r.dev.fd == NO_FD || r.dev.fd == d.fd || r.dev.fd !in os)
    && r.os == (os - {d.fd}) + (if r.dev.fd == NO_FD then {} else {r.dev.fd})
  }

  /** A descriptor the system may hand out. */
  ghost predicate FreshFd(fd: int, os: set<int>) {
    fd >= 0 && fd !in os
  }

  ghost predicate OpeningOk(o: Opening, os: set<int>) {
    match o
    case NoFd => true
    case Broken(fd) => FreshFd(fd, os)
    case Good(fd) => FreshFd(fd, os)
  }

  /** A device that may call on its descriptor has one that is open. */
  ghost predicate Backed(d: Dev, os: set<int>) {
    d.fd != NO_FD || d.state.Rank() > Closed.Rank() ==> d.fd in os
  }

  ghost predicate HoldsItsFd(d: Dev, os: set<int>) {
    NO_FD !in os && (d.fd != NO_FD ==> d.fd in os)
  }

  lemma CloseKeeps(d: Dev, os: set<int>, flags: nat, bufsize: nat)
    requires DevOk(d, bufsize) && HoldsItsFd(d, os) && flags % 2 != IOFLAG_FLUSH
    ensures var r := CloseDev(d, os, flags);
      && DevOk(r.dev, bufsize) && FdStep(d, os, r) && r.dev.fd == NO_FD
      && r.dev == d.(fd := NO_FD, state := r.dev.state)
      && (r.dev.state.Inactive? <==> d.kind.Connection? || d.state.Inactive?)
      && r.dev.state == (if d.fd == NO_FD then d.state else if d.kind.Connection? then Inactive else Closed)
  {
  }

  /** Closing with IOFLAG_FLUSH, or trying again while closing, is meant to wait while output
      is pending; it waits while there is room. The two agree exactly when the buffer is
      neither empty nor full, or cannot hold anything. */
  lemma FlushingCloseWaitsForRoom(d: Dev, os: set<int>)
    requires (d.state.IsOpen() || d.state.Closing?) && d.tbuf.Valid()
    ensures var waits := CloseDev(d, os, IOFLAG_FLUSH).dev.state.Closing?;
      (waits <==> d.tbuf.contents != []) <==>
        0 < |d.tbuf.contents| < d.tbuf.Capacity() || d.tbuf.Capacity() == 0
  {
  }

  /** So the flag for a final close is not final for a listener: it is opened again. */
  lemma FinalCloseIsReopened(fd: int, again: int) returns (d: Dev)
    requires fd >= 0 && again >= 0
    ensures d.kind.Listener? && d.state == Connected && d.fd == fd
    ensures var c := CloseDev(d, {fd}, IOFLAG_INACTIVE);
      && c.dev.state == Closed && c.os == {}
      && MaskDev(c.dev, c.os, Good(again)).dev.state == Connected
      && MaskDev(c.dev, c.os, Good(again)).dev.fd == again
  {
    d := ListenDev(2).(fd := fd, state := Connected);
    assert {fd} - {fd} == {};
  }

  /** A full buffer is where waiting fails: its bytes are dropped at once. */
  lemma FlushingCloseDropsFullBuffer(fd: int) returns (d: Dev)
    requires fd >= 0
    ensures d.state.IsOpen() && d.fd == fd && d.tbuf.Valid() && d.tbuf.contents != []
    ensures CloseDev(d, {fd}, IOFLAG_FLUSH).dev.fd == NO_FD && CloseDev(d, {fd}, IOFLAG_FLUSH).os == {}
  {
    d := AcceptedDev(fd, 2).(tbuf := Ring(2, [LF]));
  }

  lemma MaskKeeps(d: Dev, os: set<int>, o: Opening, bufsize: nat)
    requires DevOk(d, bufsize) && HoldsItsFd(d, os) && OpeningOk(o, os)
    ensures var r := MaskDev(d, os, o);
      && DevOk(r.dev, bufsize) && FdStep(d, os, r)
      && r.dev == d.(fd := r.dev.fd, state := r.dev.state)
      && (d.fd != NO_FD || d.kind.Connection? || d.state.Inactive? ==> r.dev == d)
      && (d.state in {Unopened, Closed} ==>
            match o
            case NoFd => r.dev.state == Inactive
            case Broken(_) => r.dev.state == Closed
            case Good(fd) => r.dev.state == Connected && r.dev.fd == fd)
  {
  }

  lemma ReadKeeps(d: Dev, os: set<int>, res: ReadResult, bufsize: nat)
    requires DevOk(d, bufsize) && HoldsItsFd(d, os)
    ensures var r := ReadDev(d, os, res);
      DevOk(r.dev, bufsize) && FdStep(d, os, r) && r.dev.kind == d.kind
  {
  }

  lemma WriteKeeps(d: Dev, os: set<int>, res: WriteResult, check: nat, end: nat, bufsize: nat)
    requires DevOk(d, bufsize) && HoldsItsFd(d, os)
    ensures var r := WriteDev(d, os, res, check, end);
      DevOk(r.dev, bufsize) && FdStep(d, os, r) && r.dev.kind == d.kind
  {
  }
}
