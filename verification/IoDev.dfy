/** The device object of iodev.c with the serial and TCP functions installed on it, and
    the operating system calls they make. */
module IoDevs {
  import opened Bytes
  import opened Buffers
  import opened Timers
  import opened StringStores
  import opened Tokens
  import opened Devices

  // ---- The operating system ----

  /** Open descriptors, and calls that may succeed or fail in any permitted way, but only
      on open descriptors. The system keeps a record of what was asked of it. */
  class Os {
    var open: set<int>
    ghost var calls: seq<Call>
    ghost var selects: seq<SelectCall>
    /** How many more times in a row select may report something ready. */
    var more: nat

    ghost predicate Valid()
      reads this
    {
      forall fd :: fd in open ==> fd >= 0
    }

    constructor ()
      ensures Valid() && open == {} && calls == [] && selects == []
    {
      open := {};
      calls, selects := [], [];
      more := *;
    }

    /** A descriptor not in use, or -1. */
    method NewFd() returns (fd: int)
      requires Valid()
      modifies this`open
      ensures Valid()
      ensures fd == NO_FD || FreshFd(fd, old(open))
      ensures open == if fd == NO_FD then old(open) else old(open) + {fd}
    {
      fd := *;
      if fd >= 0 && fd !in open {
        open := open + {fd};
      } else {
        fd := NO_FD;
      }
    }

    /** open on the serial port, or socket. */
    method Open(port: bool) returns (fd: int)
      requires Valid()
      modifies this`open, this`calls
      ensures Valid()
      ensures fd == NO_FD || FreshFd(fd, old(open))
      ensures open == if fd == NO_FD then old(open) else old(open) + {fd}
      ensures calls == old(calls) + [OpenCall(fd, port)]
    {
      fd := NewFd();
      calls := calls + [OpenCall(fd, port)];
    }

    method Accept(on: int) returns (fd: int)
      requires Valid() && on in open
      modifies this`open, this`calls
      ensures Valid()
      ensures fd == NO_FD || FreshFd(fd, old(open))
      ensures open == if fd == NO_FD then old(open) else old(open) + {fd}
      ensures calls == old(calls) + [AcceptCall(on, fd)]
    {
      fd := NewFd();
      calls := calls + [AcceptCall(on, fd)];
    }

    method Close(fd: int)
      requires Valid() && fd in open
      modifies this`open
      ensures Valid() && open == old(open) - {fd}
    {
      open := open - {fd};
    }

    /** select looks at the descriptors below `nfds`, keeps those that are ready and counts
        them; the result may be a timeout or an error, and is an error when one of them is
        not open. It will not report something ready for ever, but as often in a row as it
        likes. */
    method Select(nfds: int, r: FdSet, w: FdSet, x: FdSet) returns (ready: int)
      requires r != w && r != x && w != x
      modifies this`selects, this`more, r, w, x
      ensures selects == old(selects) + [SelectCall(nfds, old(Bits(r.bits, w.bits, x.bits)), ready)]
      ensures r.bits <= old(r.bits) && w.bits <= old(w.bits) && x.bits <= old(x.bits)
      ensures forall fd :: fd in r.bits || fd in w.bits || fd in x.bits ==> fd < nfds
      ensures ready > 0 ==> more < old(more)
      ensures ready > 0 ==> ready == |r.bits| + |w.bits| + |x.bits|
      ensures ready > 0 ==> forall fd :: fd in old(r.bits + w.bits + x.bits) && fd < nfds ==> fd in open
    {
      ghost var sets := Bits(r.bits, w.bits, x.bits);
      var failed: bool := *;
      var asked := r.bits + w.bits + x.bits;
      var closed := set fd | fd in asked && fd < nfds && fd !in open;
      var rk: set<int>, wk: set<int>, xk: set<int> := *, *, *;
      r.bits := set fd | fd in r.bits && fd in rk && fd < nfds;
      w.bits := set fd | fd in w.bits && fd in wk && fd < nfds;
      x.bits := set fd | fd in x.bits && fd in xk && fd < nfds;
      if failed || closed != {} {
        ready := -1;
      } else if more == 0 {
        ready := 0;
      } else {
        assert forall fd :: fd in asked && fd < nfds && fd !in open ==> fd in closed;
        ready := |r.bits| + |w.bits| + |x.bits|;
      }
      if ready > 0 {
        more := more - 1;
      } else {
        more := *;
      }
      selects := selects + [SelectCall(nfds, sets, ready)];
    }

    /** Terminal or socket set-up, which may fail. */
    method SetUp(fd: int) returns (ok: bool)
      requires fd in open
      modifies this`calls
      ensures calls == old(calls) + [SetUpCall(fd, ok)]
    {
      ok := *;
      calls := calls + [SetUpCall(fd, ok)];
    }

    method Read(fd: int, max: nat) returns (res: ReadResult)
      requires fd in open
      modifies this`calls
      ensures res.Data? ==> 0 < |res.bytes| <= max
      ensures calls == old(calls) + [ReadCall(fd, max, res)]
    {
      res := *;
      if res.Data? && !(0 < |res.bytes| <= max) {
        res := Eof;
      }
      calls := calls + [ReadCall(fd, max, res)];
    }

    method Write(fd: int, bytes: seq<byte>) returns (res: WriteResult)
      requires fd in open
      modifies this`calls
      ensures res.Wrote? ==> res.len <= |bytes|
      ensures calls == old(calls) + [WriteCall(fd, bytes, res)]
    {
      res := *;
      if res.Wrote? && res.len > |bytes| {
        res := WriteError;
      }
      calls := calls + [WriteCall(fd, bytes, res)];
    }
  }

  /** A set of descriptors for select. */
  class FdSet {
    var bits: set<int>

    constructor Zero()
      ensures bits == {}
    {
      bits := {};
    }

    method Set(fd: int)
      modifies this
      ensures bits == old(bits) + {fd}
    {
      bits := bits + {fd};
    }

    method Clr(fd: int)
      modifies this
      ensures bits == old(bits) - {fd}
    {
      bits := bits - {fd};
    }
  }

  // ---- The device ----

  class IoDev {
    var kind: Kind
    var fd: int
    var listener: bool
    var state: DevState
    var bufsize: nat
    var rbuf: Buffer
    var tbuf: Buffer
    var linebuf: StringStore?
    var pacer: MicroTimer
    ghost var Model: Dev
    ghost var Repr: set<object>

    /** The parts are the device's own, and `Model` is what they amount to. */
    ghost predicate Valid()
      reads this, Repr
      ensures Valid() ==> this in Repr
    {
      && this in Repr && pacer in Repr
      && rbuf in Repr && rbuf.data in Repr && rbuf.Valid()
      && tbuf in Repr && tbuf.data in Repr && tbuf.Valid()
      && rbuf != tbuf && rbuf.data != tbuf.data
      && (linebuf != null ==>
            && linebuf in Repr && linebuf.buff in Repr && linebuf.Valid()
            && linebuf.buff != rbuf.data && linebuf.buff != tbuf.data)
      && Model == Dev(kind, fd, listener, state, bufsize, rbuf.Model(), tbuf.Model(),
                      if linebuf == null then None else Some(linebuf.Contents), pacer.Model())
    }

    /** Empty buffers and an endless timer, all of them new. */
    static method NewParts(bufsize: nat) returns (r: Buffer, t: Buffer, p: MicroTimer)
      ensures fresh({r, t, p}) && fresh(r.data) && fresh(t.data) && r != t && r.data != t.data
      ensures r.Valid() && r.Model() == Ring(bufsize, [])
      ensures t.Valid() && t.Model() == Ring(bufsize, [])
      ensures p.Model() == Timer(0, NEVER)
    {
      r := new Buffer(bufsize);
      t := new Buffer(bufsize);
      p := new MicroTimer();
    }

    /** The memory of a new slot, before a creator initialises it. */
    constructor ()
      ensures Valid() && fresh(Repr)
    {
      kind, fd, listener, state, bufsize := Connection, NO_FD, true, Unopened, 0;
      var r, t, p := NewParts(0);
      rbuf, tbuf, linebuf, pacer := r, t, null, p;
      Model := Dev(Connection, NO_FD, true, Unopened, 0, Ring(0, []), Ring(0, []), None, Timer(0, NEVER));
      Repr := {this, r, r.data, t, t.data, p};
    }

    method ClearFields(kind: Kind, bufsize: nat)
      modifies this`kind, this`fd, this`listener, this`state, this`bufsize
      ensures this.kind == kind && fd == NO_FD && listener == (bufsize == 0) && state == Unopened
      ensures this.bufsize == bufsize
    {
      this.kind, fd, listener, state := kind, NO_FD, bufsize == 0, Unopened;
      this.bufsize := bufsize;
    }

    /** Take over the parts: closed, with these empty buffers. */
    method Install(kind: Kind, bufsize: nat, r: Buffer, t: Buffer, p: MicroTimer)
      requires r != t && r.data != t.data && r.Valid() && t.Valid()
      requires r.Model() == Ring(bufsize, []) && t.Model() == Ring(bufsize, [])
      requires p.Model() == Timer(0, NEVER)
      modifies this
      ensures Valid() && Repr == {this, r, r.data, t, t.data, p}
      ensures Model == InitDev(kind, bufsize)
    {
      ClearFields(kind, bufsize);
      rbuf, tbuf, linebuf, pacer := r, t, null, p;
      Model := InitDev(kind, bufsize);
      Repr := {this, r, r.data, t, t.data, p};
    }

    /** Start over in place: closed, with empty buffers of its own. */
    method Init(kind: Kind, bufsize: nat)
      modifies this
      ensures Valid() && fresh(Repr - {this})
      ensures Model == InitDev(kind, bufsize)
    {
      var r, t, p := NewParts(bufsize);
      Install(kind, bufsize, r, t, p);
    }

    method CreateSerial(bufsize: nat, clock: Clock)
      requires clock.Valid()
      modifies this, clock
      ensures Valid() && fresh(Repr - {this})
      ensures clock.Valid() && old(clock.now) <= clock.now
      ensures Model == SerialDev(bufsize, clock.now) && clock.readings == old(clock.readings) + [clock.now]
    {
      Init(SerialPort, bufsize);
      pacer.Reset(0, clock);
      Model := SerialDev(bufsize, clock.now);
    }

    method CreateListen(bufsize: nat)
      modifies this
      ensures Valid() && fresh(Repr - {this})
      ensures Model == ListenDev(bufsize)
    {
      Init(Listener, 0);
      this.bufsize := bufsize;
      Model := ListenDev(bufsize);
    }

    /** Receive commands into a line store, on an open descriptor. */
    method Connect(fd: int, store: StringStore)
      requires Valid() && store.Valid() && store.Contents == []
      requires store.buff != rbuf.data && store.buff != tbuf.data
      modifies this
      ensures Valid() && Repr == old(Repr) + {store, store.buff}
      ensures Model == old(Model).(linebuf := Some([]), fd := fd, state := Connected)
    {
      linebuf := store;
      Repr := Repr + {store, store.buff};
      state := Open;
      this.fd := fd;
      state := Connected;
      Model := Model.(linebuf := Some([]), fd := fd, state := Connected);
    }

    method CreateAccepted(fd: int, bufsize: nat)
      modifies this
      ensures Valid() && fresh(Repr - {this})
      ensures Model == AcceptedDev(fd, bufsize)
    {
      var store := new StringStore(STORE_SIZE);
      Init(Connection, bufsize);
      Connect(fd, store);
    }

    method CreateTcp(listen: bool, fd: int, bufsize: nat)
      modifies this
      ensures Valid() && fresh(Repr - {this})
      ensures Model == CreatedDev(listen, fd, bufsize)
    {
      if listen {
        CreateListen(bufsize);
      } else {
        CreateAccepted(fd, bufsize);
      }
    }

    // ---- Close and open ----

    method Close(flags: nat, os: Os)
      requires Valid() && os.Valid() && Backed(Model, os.open)
      modifies this`fd, this`state, this`Model, os`open
      ensures Valid() && os.Valid()
      ensures DevOs(Model, os.open) == CloseDev(old(Model), old(os.open), flags)
    {
      if state.Rank() > Closed.Rank() {
        var drained := true;
        if state != Pending {
          state := Closing;
          // still data to send: retry later
          drained := flags % 2 != IOFLAG_FLUSH || tbuf.Available() == 0;
        }
        if drained {
          CloseFd(os);
        }
      }
      if kind == Connection && state == Closed {
        state := Inactive;
      }
      Model := Model.(fd := fd, state := state);
    }

    method CloseFd(os: Os)
      requires os.Valid() && fd in os.open
      modifies this`fd, this`state, os`open
      ensures os.Valid()
      ensures fd == NO_FD && state == Closed && os.open == old(os.open) - {old(fd)}
    {
      os.Close(fd);
      fd := NO_FD;
      state := Closed;
    }

    method Assign(fd: int, state: DevState)
      requires Valid()
      modifies this`fd, this`state, this`Model
      ensures Valid() && Model == old(Model).(fd := fd, state := state)
    {
      this.fd, this.state := fd, state;
      Model := Model.(fd := fd, state := state);
    }

    method OpenSerial(os: Os) returns (o: Opening)
      requires Valid() && os.Valid() && kind == SerialPort && Backed(Model, os.open)
      modifies this`fd, this`state, this`Model, os`open, os`calls
      ensures Valid() && os.Valid()
      ensures DevOs(Model, os.open) == OpenDev(old(Model), old(os.open), o)
      ensures !old(state).IsOpen() ==> OpeningOk(o, old(os.open))
      ensures os.calls == old(os.calls) + OpenCalls(o, true)
    {
      if state.IsOpen() {
        Close(IOFLAG_NONE, os);
      }
      o := OpenPort(os);
    }

    /** The serial port, set up if that works. */
    method OpenPort(os: Os) returns (o: Opening)
      requires Valid() && os.Valid()
      modifies this`fd, this`state, this`Model, os`open, os`calls
      ensures Valid() && os.Valid() && OpeningOk(o, old(os.open))
      ensures DevOs(Model, os.open) == Opened(DevOs(old(Model), old(os.open)), o, IOFLAG_NONE)
      ensures os.calls == old(os.calls) + OpenCalls(o, true)
    {
      var port := os.Open(true);
      if port == NO_FD {
        Assign(NO_FD, Inactive);
        o := NoFd;
      } else {
        Assign(port, Open);
        var ok := os.SetUp(fd);
        if ok {
          Assign(port, Connected);
          o := Good(port);
        } else {
          o := Broken(port);
          Close(IOFLAG_NONE, os);
        }
      }
    }

    method OpenListen(os: Os) returns (o: Opening)
      requires Valid() && os.Valid() && kind == Listener && Backed(Model, os.open)
      modifies this`fd, this`state, this`Model, os`open, os`calls
      ensures Valid() && os.Valid()
      ensures DevOs(Model, os.open) == OpenDev(old(Model), old(os.open), o)
      ensures !old(state).IsOpen() ==> OpeningOk(o, old(os.open))
      ensures os.calls == old(os.calls) +
        if old(state).IsOpen() || old(fd) == NO_FD then OpenCalls(o, false) else []
    {
      o := NoFd;
      if state.IsOpen() {
        Close(IOFLAG_NONE, os);
      }
      if fd == NO_FD {
        o := OpenSocket(os);
      }
    }

    /** A socket, bound and listening if that works. */
    method OpenSocket(os: Os) returns (o: Opening)
      requires Valid() && os.Valid() && fd == NO_FD
      modifies this`fd, this`state, this`Model, os`open, os`calls
      ensures Valid() && os.Valid() && OpeningOk(o, old(os.open))
      ensures DevOs(Model, os.open) == Opened(DevOs(old(Model), old(os.open)), o, IOFLAG_INACTIVE)
      ensures os.calls == old(os.calls) + OpenCalls(o, false)
    {
      var socket := os.Open(false);
      if socket == NO_FD {
        Assign(NO_FD, Inactive);
        o := NoFd;
      } else {
        Assign(socket, Pending);
        Assign(socket, Open);
        o := Bind(os);
      }
    }

    /** Bind a socket and listen on it, or close it again. */
    method Bind(os: Os) returns (o: Opening)
      requires Valid() && os.Valid() && state == Open && fd in os.open
      modifies this`fd, this`state, this`Model, os`open, os`calls
      ensures Valid() && os.Valid() && os.calls == old(os.calls) + [SetUpCall(old(fd), o.Good?)]
      ensures o == Good(old(fd)) || o == Broken(old(fd))
      ensures DevOs(Model, os.open) ==
        if o.Good? then DevOs(old(Model).(state := Connected), old(os.open))
        else CloseDev(old(Model), old(os.open), IOFLAG_INACTIVE)
    {
      var bound := os.SetUp(fd);
      if bound {
        o := Good(fd);
        Assign(fd, Connected);
      } else {
        o := Broken(fd);
        Close(IOFLAG_INACTIVE, os);
      }
    }

    method OpenTcp(os: Os) returns (o: Opening)
      requires Valid() && os.Valid() && kind == Connection && Backed(Model, os.open)
      modifies this`fd, this`state, this`Model, os`open
      ensures Valid() && os.Valid()
      ensures DevOs(Model, os.open) == OpenDev(old(Model), old(os.open), o) && o == NoFd
    {
      o := NoFd;
      if state.IsOpen() {
        Close(IOFLAG_NONE, os);
      }
    }

    method OpenIt(os: Os) returns (o: Opening)
      requires Valid() && os.Valid() && Backed(Model, os.open)
      modifies this`fd, this`state, this`Model, os`open, os`calls
      ensures Valid() && os.Valid()
      ensures DevOs(Model, os.open) == OpenDev(old(Model), old(os.open), o)
      ensures !old(state).IsOpen() ==> OpeningOk(o, old(os.open))
      ensures old(state) in {Unopened, Closed} ==> os.calls == old(os.calls) + MaskCalls(old(Model), o)
    {
      match kind
      case SerialPort => o := OpenSerial(os);
      case Listener => o := OpenListen(os);
      case Connection => o := OpenTcp(os);
    }

    // ---- Select masks ----

    method SendOk(clock: Clock) returns (ok: bool)
      requires Valid() && clock.Valid()
      modifies clock
      ensures clock.Valid() && old(clock.now) <= clock.now
      ensures ok == Devices.SendOk(Model, clock.now)
      ensures clock.readings == old(clock.readings) +
        if kind == SerialPort && Model.pacer.ending != NEVER then [clock.now] else []
    {
      ok := true;
      if kind == SerialPort {
        ok := pacer.Expired(clock);
      }
    }

    /** Masks of a device that is up: by its room and its pending output. */
    method SetMasksUp(r: FdSet, w: FdSet, x: FdSet)
      requires Valid() && r != w && r != x && w != x && {r, w, x} !! Repr
      modifies r, w, x
      ensures r.bits == SetIf(old(r.bits), fd, rbuf.Model().Available() > 0)
      ensures w.bits == SetIf(old(w.bits), fd, tbuf.Model().contents != [])
      ensures x.bits == old(x.bits) + {fd}
    {
      if rbuf.Available() > 0 {
        r.Set(fd);
      }
      if tbuf.Used() > 0 {
        w.Set(fd);
      }
      x.Set(fd);
    }

    /** Masks of a device that is draining: only output, when it may be sent. */
    method SetMasksDraining(w: FdSet, x: FdSet, clock: Clock)
      requires Valid() && clock.Valid() && w != x && {w, x, clock} !! Repr
      modifies w, x, clock
      ensures clock.Valid() && old(clock.now) <= clock.now
      ensures w.bits == SetIf(old(w.bits), fd, Devices.SendOk(Model, clock.now))
      ensures x.bits == SetIf(old(x.bits), fd, Devices.SendOk(Model, clock.now))
    {
      var ok := SendOk(clock);
      if ok {
        w.Set(fd);
        x.Set(fd);
      }
    }

    ghost predicate Apart(r: FdSet, w: FdSet, x: FdSet, os: Os, clock: Clock)
      reads this
    {
      r != w && r != x && w != x && {r, w, x, os, clock} !! Repr
    }

    method ClearMasks(r: FdSet, w: FdSet, x: FdSet)
      requires r != w && r != x && w != x
      modifies r, w, x
      ensures Bits(r.bits, w.bits, x.bits) ==
        (if fd >= 0 then old(Bits(r.bits, w.bits, x.bits)).Without(fd) else old(Bits(r.bits, w.bits, x.bits)))
    {
      if fd >= 0 {
        r.Clr(fd);
        w.Clr(fd);
        x.Clr(fd);
      }
    }

    method SetMasksListen(r: FdSet, w: FdSet, x: FdSet, os: Os) returns (active: bool, o: Opening)
      requires Valid() && os.Valid() && kind == Listener && r != w && r != x && w != x
      requires {r, w, x, os} !! Repr && Backed(Model, os.open)
      modifies this`fd, this`state, this`Model, r, w, x, os`open, os`calls
      ensures Valid() && os.Valid() && OpeningOk(o, old(os.open))
      ensures DevOs(Model, os.open) == MaskDev(old(Model), old(os.open), o)
      ensures os.calls == old(os.calls) + MaskCalls(old(Model), o)
      ensures forall time :: MaskBits(old(Model), time, old(Bits(r.bits, w.bits, x.bits))) ==
                             Masked(Bits(r.bits, w.bits, x.bits), active)
    {
      active, o := false, NoFd;
      ClearMasks(r, w, x);
      if state.Rank() >= Pending.Rank() {
        r.Set(fd);
        x.Set(fd);
        active := true;
      } else if state == Unopened || state == Closed {
        o := OpenIt(os);
      }
    }

    /** Masks of a device that is not up: it may be drained, opened or closed. */
    method SetMasksNotUp(r: FdSet, w: FdSet, x: FdSet, os: Os, clock: Clock) returns (active: bool, o: Opening)
      requires Valid() && os.Valid() && clock.Valid() && Apart(r, w, x, os, clock)
      requires kind != Listener && !state.IsOpen() && Backed(Model, os.open)
      modifies this`fd, this`state, this`Model, r, w, x, os`open, os`calls, clock
      ensures Valid() && os.Valid() && OpeningOk(o, old(os.open))
      ensures clock.Valid() && old(clock.now) <= clock.now
      ensures DevOs(Model, os.open) == MaskDev(old(Model), old(os.open), o)
      ensures os.calls == old(os.calls) + MaskCalls(old(Model), o)
      ensures Masked(Bits(r.bits, w.bits, x.bits), active) == match old(state)
        case Closing =>
          var ok := Devices.SendOk(old(Model), clock.now);
          if old(tbuf.Contents) == [] then Masked(old(Bits(r.bits, w.bits, x.bits)), false)
          else Masked(Bits(old(r.bits), SetIf(old(w.bits), old(fd), ok), SetIf(old(x.bits), old(fd), ok)), true)
        case Pending => Masked(Bits(old(r.bits) + {old(fd)}, old(w.bits), old(x.bits)), true)
        case _ => Masked(old(Bits(r.bits, w.bits, x.bits)), false)
    {
      active, o := false, NoFd;
      if state == Pending {
        r.Set(fd);
        active := true;
      } else if state == Unopened || state == Closed {
        o := OpenIt(os);
      } else if state == Closing {
        if tbuf.Used() > 0 {
          SetMasksDraining(w, x, clock);
          active := true;
        } else {
          Close(IOFLAG_NONE, os);
        }
      }
    }

    method SetMasksIo(r: FdSet, w: FdSet, x: FdSet, os: Os, clock: Clock) returns (active: bool, o: Opening)
      requires Valid() && os.Valid() && clock.Valid() && kind != Listener && Apart(r, w, x, os, clock)
      requires Backed(Model, os.open)
      modifies this`fd, this`state, this`Model, r, w, x, os`open, os`calls, clock
      ensures Valid() && os.Valid() && OpeningOk(o, old(os.open))
      ensures clock.Valid() && old(clock.now) <= clock.now
      ensures DevOs(Model, os.open) == MaskDev(old(Model), old(os.open), o)
      ensures os.calls == old(os.calls) + MaskCalls(old(Model), o)
      ensures Masked(Bits(r.bits, w.bits, x.bits), active) ==
        MaskBits(old(Model), clock.now, old(Bits(r.bits, w.bits, x.bits)))
    {
      ClearMasks(r, w, x);
      if state.IsOpen() {
        SetMasksUp(r, w, x);
        active, o := true, NoFd;
      } else {
        active, o := SetMasksNotUp(r, w, x, os, clock);
      }
    }

    method SetMasks(r: FdSet, w: FdSet, x: FdSet, os: Os, clock: Clock) returns (active: bool, o: Opening)
      requires Valid() && os.Valid() && clock.Valid() && Apart(r, w, x, os, clock) && Backed(Model, os.open)
      modifies this`fd, this`state, this`Model, r, w, x, os`open, os`calls, clock
      ensures Valid() && os.Valid() && OpeningOk(o, old(os.open))
      ensures clock.Valid() && old(clock.now) <= clock.now
      ensures DevOs(Model, os.open) == MaskDev(old(Model), old(os.open), o)
      ensures os.calls == old(os.calls) + MaskCalls(old(Model), o)
      ensures Masked(Bits(r.bits, w.bits, x.bits), active) ==
        MaskBits(old(Model), clock.now, old(Bits(r.bits, w.bits, x.bits)))
    {
      if kind == Listener {
        active, o := SetMasksListen(r, w, x, os);
      } else {
        active, o := SetMasksIo(r, w, x, os, clock);
      }
    }

    // ---- Handlers ----

    method Flush()
      requires Valid()
      modifies this`Model, rbuf, tbuf
      ensures Valid()
      ensures Model == old(Model).(rbuf := old(Model).rbuf.Flushed(), tbuf := old(Model).tbuf.Flushed())
    {
      rbuf.Flush();
      tbuf.Flush();
      Model := Model.(rbuf := rbuf.Model(), tbuf := tbuf.Model());
    }

    method ReadHandler(os: Os) returns (res: ReadResult)
      requires Valid() && os.Valid() && os !in Repr && Backed(Model, os.open)
      modifies this`fd, this`state, this`Model, rbuf, rbuf.data, tbuf, os`open, os`calls
      ensures Valid() && os.Valid()
      ensures res.Data? ==> 0 < |res.bytes| <= old(Model).rbuf.Available()
      ensures DevOs(Model, os.open) == ReadDev(old(Model), old(os.open), res)
      ensures os.calls == old(os.calls) + ReadCalls(old(Model), res)
    {
      res := ReadError;
      if fd != NO_FD {
        var available := rbuf.Available();
        if state.IsOpen() {
          res := os.Read(fd, available);
        }
        if res.Data? {
          var put := rbuf.Put(res.bytes);
          Model := Model.(rbuf := rbuf.Model());
        } else {
          Flush();
          Close(IOFLAG_INACTIVE, os);
        }
      }
    }

    /** The write handler of sockets: offer everything, keep what was not taken. */
    method WriteHandlerIo(os: Os, clock: Clock) returns (res: WriteResult)
      requires Valid() && os.Valid() && clock.Valid() && {os, clock} !! Repr && kind != SerialPort
      requires Backed(Model, os.open)
      modifies this`fd, this`state, this`Model, rbuf, tbuf, os`open, os`calls
      ensures Valid() && os.Valid()
      ensures res.Wrote? ==> res.len <= |Offered(old(Model))|
      ensures DevOs(Model, os.open) == WriteDev(old(Model), old(os.open), res, clock.now, clock.now)
      ensures os.calls == old(os.calls) + WriteCalls(old(Model), res, clock.now)
    {
      res := Wrote(0);
      if fd != NO_FD {
        var available := tbuf.Used();
        if available > 0 {
          var tmp, len := tbuf.Peek(available);
          res := os.Write(fd, tmp);
          match res
          case WriteError =>
            Flush();
            Close(IOFLAG_NONE, os);
          case Wrote(n) =>
            var none, got := tbuf.Get(n, false);
            Model := Model.(tbuf := tbuf.Model());
        }
      }
    }

    /** Write one character to the serial port, and restart the pacer when it is gone. */
    method SendCharacter(os: Os, clock: Clock) returns (res: WriteResult)
      requires Valid() && os.Valid() && clock.Valid() && {os, clock} !! Repr && kind == SerialPort
      requires tbuf.Contents != [] && Backed(Model, os.open) && fd != NO_FD
      modifies this`fd, this`state, this`Model, tbuf, pacer, os`open, os`calls, clock
      ensures Valid() && os.Valid() && clock.Valid() && old(clock.now) <= clock.now
      ensures res.Wrote? ==> res.len <= 1
      ensures DevOs(Model, os.open) == match res
        case WriteError => CloseDev(old(Model), old(os.open), IOFLAG_NONE)
        case Wrote(n) =>
          DevOs(old(Model).(tbuf := old(Model).tbuf.Drop(n),
                            pacer := Started(RIGHT_NOW, CHARACTER_PACING, clock.now)), old(os.open))
      ensures os.calls == old(os.calls) + [WriteCall(old(fd), old(tbuf.Contents)[..1], res)]
      ensures clock.readings == old(clock.readings) + if res.Wrote? then [clock.now] else []
    {
      var ch, one := tbuf.Peek(1);
      res := os.Write(fd, ch);
      match res
      case WriteError =>
        Close(IOFLAG_NONE, os);
      case Wrote(n) =>
        var none, got := tbuf.Get(n, false);
        pacer.Reset(CHARACTER_PACING, clock);
        Model := Model.(tbuf := tbuf.Model(), pacer := pacer.Model());
    }

    /** The write handler of the serial port: one character, when the pacer allows it. */
    method WriteHandlerSerial(os: Os, clock: Clock) returns (res: WriteResult, check: nat)
      requires Valid() && os.Valid() && clock.Valid() && {os, clock} !! Repr && kind == SerialPort
      requires Backed(Model, os.open)
      modifies this`fd, this`state, this`Model, tbuf, pacer, os`open, os`calls, clock
      ensures Valid() && os.Valid()
      ensures clock.Valid() && old(clock.now) <= check <= clock.now
      ensures res.Wrote? ==> res.len <= |Offered(old(Model))|
      ensures DevOs(Model, os.open) == WriteDev(old(Model), old(os.open), res, check, clock.now)
      ensures os.calls == old(os.calls) + WriteCalls(old(Model), res, check)
      ensures clock.readings == old(clock.readings) + WriteReadings(old(Model), res, check, clock.now)
    {
      res, check := Wrote(0), clock.now;
      if fd != NO_FD {
        var available := tbuf.Used();
        if available > 0 {
          var expired := pacer.Expired(clock);
          check := clock.now;
          if expired {
            res := SendCharacter(os, clock);
          }
        }
      }
    }

    method WriteHandler(os: Os, clock: Clock) returns (res: WriteResult, check: nat)
      requires Valid() && os.Valid() && clock.Valid() && {os, clock} !! Repr && Backed(Model, os.open)
      modifies this`fd, this`state, this`Model, rbuf, tbuf, pacer, os`open, os`calls, clock
      ensures Valid() && os.Valid()
      ensures clock.Valid() && old(clock.now) <= check <= clock.now
      ensures res.Wrote? ==> res.len <= |Offered(old(Model))|
      ensures DevOs(Model, os.open) == WriteDev(old(Model), old(os.open), res, check, clock.now)
      ensures os.calls == old(os.calls) + WriteCalls(old(Model), res, check)
    {
      if kind == SerialPort {
        res, check := WriteHandlerSerial(os, clock);
      } else {
        check := clock.now;
        res := WriteHandlerIo(os, clock);
      }
    }

    method ExceptHandler(os: Os)
      requires Valid() && os.Valid() && Backed(Model, os.open)
      modifies this`fd, this`state, this`Model, os`open
      ensures Valid() && os.Valid()
      ensures DevOs(Model, os.open) == ExceptDev(old(Model), old(os.open))
    {
      Close(IOFLAG_NONE, os);
    }

    // ---- Buffered output and collected input ----

    /** Queue bytes for transmission: whatever fits, if the device is open. The result
        counts the bytes handed over, not those queued. */
    method Write(bytes: seq<byte>) returns (rc: int)
      requires Valid()
      modifies this`Model, tbuf, tbuf.data
      ensures Valid()
      ensures Model == QueueDev(old(Model), bytes)
      ensures rc == if old(state).IsOpen() then |bytes| else -1
    {
      rc := -1;
      if state.IsOpen() {
        if |bytes| > 0 {
          var put := tbuf.Put(bytes);
          Model := Model.(tbuf := tbuf.Model());
        }
        rc := |bytes|;
      }
    }

    // ---- What the process cycle does with a device ----

    /** Move everything received into another buffer, if the device is open. */
    method MoveReceived(dst: Buffer) returns (moved: nat)
      requires Valid() && dst.Valid() && dst !in Repr && dst.data !in Repr
      modifies this`Model, rbuf, dst, dst.data
      ensures Valid() && dst.Valid()
      ensures var bytes := Movable(old(Model), old(dst.Model()).Available());
        && moved == |bytes|
        && dst.Model() == old(dst.Model()).Put(bytes)
        && Model == old(Model).(rbuf := old(Model).rbuf.Drop(|bytes|))
    {
      moved := if state.IsOpen() then rbuf.Used() else 0;
      if moved > 0 {
        moved := Buffer.Move(dst, rbuf, moved);
        Model := Model.(rbuf := rbuf.Model());
      }
    }

    /** Queue a copy of the first bytes of another buffer for transmission. */
    method CopyFrom(src: Buffer, len: nat)
      requires Valid() && src.Valid() && src !in Repr && src.data !in Repr
      modifies this`Model, tbuf, tbuf.data, src`lo, src`hi, src`Contents
      ensures Valid() && src.Valid() && src.Model() == old(src.Model())
      ensures Model == old(Model).(tbuf := old(Model).tbuf.Put(Fit(src.Contents, len)))
    {
      if len > 0 {
        var copied := Buffer.Copy(tbuf, src, len);
        Model := Model.(tbuf := tbuf.Model());
      }
    }

    /** Collect what was received in the line buffer, if there is one. */
    method CollectLine()
      requires Valid()
      modifies this`Model, this`Repr, rbuf, linebuf, if linebuf == null then {} else {linebuf.buff}
      ensures Valid() && fresh(Repr - old(Repr)) && old(Repr) <= Repr
      ensures Model == (if old(Model).linebuf.None? then old(Model)
        else old(Model).(linebuf := Some(old(Model).linebuf.value + old(Model).rbuf.contents),
                         rbuf := old(Model).rbuf.Drop(|old(Model).rbuf.contents|)))
    {
      var bytes := rbuf.Used();
      if bytes > 0 && linebuf != null {
        var data, got := rbuf.Get(bytes, true);
        assert data == old(rbuf.Contents);
        var stored := linebuf.Append(data);
        Repr := Repr + {linebuf.buff};
        Model := Model.(linebuf := Some(linebuf.Contents), rbuf := rbuf.Model());
      } else if linebuf != null {
        assert linebuf.Contents + [] == linebuf.Contents;
      }
    }

    /** The next command in the line buffer, if it is complete. */
    method NextLine() returns (command: Option<seq<byte>>)
      requires Valid()
      ensures command == match Model.linebuf
        case None => None
        case Some(line) =>
          match NextLength(line, NEWLINE)
          case None => None
          case Some(len) => Some(line[..len])
    {
      command := None;
      if linebuf != null && linebuf.used > 0 {
        var iter := new StringIterator(linebuf);
        assert iter.Rest() == linebuf.Contents;
        var ptr, length := iter.NextStr();
        if ptr.Some? && length > 0 {
          command := Some(linebuf.buff[ptr.value..ptr.value + length]);
          assert command.value == linebuf.Contents[..length];
        }
      }
    }

    /** Remove a command from the line buffer. */
    method ConsumeLine(len: nat)
      requires Valid() && Model.linebuf.Some?
      modifies this`Model, linebuf, if linebuf == null then {} else {linebuf.buff}
      ensures Valid()
      ensures Model == old(Model).(linebuf := Some(Consumed(old(Model).linebuf.value, len)))
    {
      linebuf.Consume(len);
      Model := Model.(linebuf := Some(linebuf.Contents));
    }
  }
}
