/** The calls made on the operating system, as it records them: what went through each
    descriptor and over the serial line, and that the histories of the gateway say so. */
module Calls {
  import opened Bytes
  import opened Buffers
  import opened Timers
  import opened Devices
  import opened Systems
  import opened Shapes
  import Streams
  import Wire

  // ---- Reading the record ----

  /** The bytes written to a descriptor since it was made. */
  function SentOn(calls: seq<Call>, fd: int): seq<byte> {
    if calls == [] then []
    else
      var before := SentOn(calls[..|calls| - 1], fd);
      match calls[|calls| - 1]
      case OpenCall(f, _) => if f == fd then [] else before
      case AcceptCall(_, f) => if f == fd then [] else before
      case WriteCall(f, bytes, Wrote(len)) => if f == fd then before + Fit(bytes, len) else before
      case _ => before
  }

  /** The bytes read from a descriptor since it was made. */
  function GotOn(calls: seq<Call>, fd: int): seq<byte> {
    if calls == [] then []
    else
      var before := GotOn(calls[..|calls| - 1], fd);
      match calls[|calls| - 1]
      case OpenCall(f, _) => if f == fd then [] else before
      case AcceptCall(_, f) => if f == fd then [] else before
      case ReadCall(f, _, Data(bytes)) => if f == fd then before + bytes else before
      case _ => before
  }

  /** A descriptor is one of the serial port. */
  predicate IsPort(calls: seq<Call>, fd: int) {
    calls != [] &&
    match calls[|calls| - 1]
    case OpenCall(f, port) => if f == fd then port else IsPort(calls[..|calls| - 1], fd)
    case AcceptCall(_, f) => f != fd && IsPort(calls[..|calls| - 1], fd)
    case _ => IsPort(calls[..|calls| - 1], fd)
  }

  /** The bytes written to the serial port, through whatever descriptors it had. */
  function LineOut(calls: seq<Call>): seq<byte> {
    if calls == [] then []
    else
      var front := calls[..|calls| - 1];
      match calls[|calls| - 1]
      case WriteCall(f, bytes, Wrote(len)) =>
        if IsPort(front, f) then LineOut(front) + Fit(bytes, len) else LineOut(front)
      case _ => LineOut(front)
  }

  /** The bytes read from the serial port. */
  function LineIn(calls: seq<Call>): seq<byte> {
    if calls == [] then []
    else
      var front := calls[..|calls| - 1];
      match calls[|calls| - 1]
      case ReadCall(f, _, Data(bytes)) =>
        if IsPort(front, f) then LineIn(front) + bytes else LineIn(front)
      case _ => LineIn(front)
  }

  /** A call on one descriptor changes nothing of another. */
  ghost predicate SameOn(calls: seq<Call>, later: seq<Call>, fd: int) {
    && SentOn(later, fd) == SentOn(calls, fd) && GotOn(later, fd) == GotOn(calls, fd)
    && IsPort(later, fd) == IsPort(calls, fd)
  }

  ghost predicate SameLine(calls: seq<Call>, later: seq<Call>) {
    LineOut(later) == LineOut(calls) && LineIn(later) == LineIn(calls)
  }

  lemma NoCall(calls: seq<Call>)
    ensures calls + [] == calls
  {
  }

  lemma OpenRecord(calls: seq<Call>, f: int, port: bool, fd: int)
    ensures var later := calls + [OpenCall(f, port)];
      && SameLine(calls, later) && (f != fd ==> SameOn(calls, later, fd))
      && (IsPort(later, f) <==> port)
  {
    assert (calls + [OpenCall(f, port)])[..|calls|] == calls;
  }

  lemma SetUpRecord(calls: seq<Call>, f: int, ok: bool, fd: int)
    ensures var later := calls + [SetUpCall(f, ok)]; SameLine(calls, later) && SameOn(calls, later, fd)
  {
    assert (calls + [SetUpCall(f, ok)])[..|calls|] == calls;
  }

  /** The descriptor an opening made, if any. */
  function MadeBy(o: Opening): int {
    if o.NoFd? then NO_FD else o.fd
  }

  /** Opening a device, whatever comes of it. */
  lemma MaskRecord(calls: seq<Call>, d: Dev, o: Opening, fd: int)
    ensures var later := calls + MaskCalls(d, o);
      && SameLine(calls, later)
      && (fd != MadeBy(o) || MaskCalls(d, o) == [] ==> SameOn(calls, later, fd))
      && (MaskCalls(d, o) != [] ==> (IsPort(later, MadeBy(o)) <==> d.kind.SerialPort?))
  {
    if MaskCalls(d, o) == [] {
      NoCall(calls);
    } else {
      var port := d.kind.SerialPort?;
      OpenRecord(calls, MadeBy(o), port, fd);
      if !o.NoFd? {
        var one := calls + [OpenCall(o.fd, port)];
        SetUpRecord(one, o.fd, o.Good?, fd);
        SetUpRecord(one, o.fd, o.Good?, o.fd);
        assert calls + MaskCalls(d, o) == one + [SetUpCall(o.fd, o.Good?)];
      }
    }
  }

  lemma AcceptRecord(calls: seq<Call>, on: int, f: int, fd: int)
    ensures var later := calls + [AcceptCall(on, f)];
      && SameLine(calls, later) && (f != fd ==> SameOn(calls, later, fd))
      && SentOn(later, f) == [] && GotOn(later, f) == [] && !IsPort(later, f)
  {
    assert (calls + [AcceptCall(on, f)])[..|calls|] == calls;
  }

  lemma ReadRecord(calls: seq<Call>, f: int, max: nat, res: ReadResult, fd: int)
    ensures var later, bytes := calls + [ReadCall(f, max, res)], if res.Data? then res.bytes else [];
      && (f != fd ==> SameOn(calls, later, fd)) && IsPort(later, f) == IsPort(calls, f)
      && SentOn(later, f) == SentOn(calls, f) && GotOn(later, f) == GotOn(calls, f) + bytes
      && LineOut(later) == LineOut(calls)
      && LineIn(later) == LineIn(calls) + if IsPort(calls, f) then bytes else []
  {
    assert (calls + [ReadCall(f, max, res)])[..|calls|] == calls;
  }

  lemma WriteRecord(calls: seq<Call>, f: int, bytes: seq<byte>, res: WriteResult, fd: int)
    ensures var later, sent := calls + [WriteCall(f, bytes, res)], if res.Wrote? then Fit(bytes, res.len) else [];
      && (f != fd ==> SameOn(calls, later, fd)) && IsPort(later, f) == IsPort(calls, f)
      && SentOn(later, f) == SentOn(calls, f) + sent && GotOn(later, f) == GotOn(calls, f)
      && LineOut(later) == LineOut(calls) + (if IsPort(calls, f) then sent else [])
      && LineIn(later) == LineIn(calls)
  {
    assert (calls + [WriteCall(f, bytes, res)])[..|calls|] == calls;
  }

  // ---- The histories say so ----

  /** What went through the descriptor of a live connection is what its history says. */
  ghost predicate ConnCallsOk(slot: Slot, calls: seq<Call>) {
    slot.dev.kind.Connection? && slot.dev.fd != NO_FD ==>
      && !IsPort(calls, slot.dev.fd)
      && SentOn(calls, slot.dev.fd) == slot.log.written
      && GotOn(calls, slot.dev.fd) == slot.log.received
  }

  /** And what went over the serial line, what the histories of the serial device say. */
  ghost predicate LineOk(s: Sys) {
    && |s.slots| > 0
    && (s.slots[0].dev.fd != NO_FD ==> IsPort(s.calls, s.slots[0].dev.fd))
    && LineOut(s.calls) == Wire.WireBytes(s.log.wire)
    && LineIn(s.calls) == s.log.read
  }

  ghost predicate CallsOk(s: Sys) {
    LineOk(s) && forall k :: 0 < k < |s.slots| ==> ConnCallsOk(s.slots[k], s.calls)
  }

  /** The devices of two slots have different descriptors. */
  lemma OtherFd(s: Sys, i: nat, k: nat, bufsize: nat)
    requires Layout(s, bufsize) && i < |s.slots| && k < |s.slots| && i != k && s.slots[i].dev.fd != NO_FD
    ensures s.slots[i].dev.fd != s.slots[k].dev.fd
    ensures s.slots[i].dev.fd in s.os
  {
    assert DevsOf(s)[i] == s.slots[i].dev && DevsOf(s)[k] == s.slots[k].dev;
  }

  lemma HeldFd(s: Sys, k: nat, bufsize: nat)
    requires Layout(s, bufsize) && k < |s.slots| && s.slots[k].dev.fd != NO_FD
    ensures s.slots[k].dev.fd in s.os
  {
    assert DevsOf(s)[k] == s.slots[k].dev;
  }

  lemma OtherConn(slot: Slot, calls: seq<Call>, later: seq<Call>)
    requires ConnCallsOk(slot, calls)
    requires slot.dev.fd != NO_FD ==> SameOn(calls, later, slot.dev.fd)
    ensures ConnCallsOk(slot, later)
  {
  }

  lemma ReadOwn(slot: Slot, os: set<int>, res: ReadResult, calls: seq<Call>, bufsize: nat)
    requires ConnCallsOk(slot, calls) && DevOk(slot.dev, bufsize)
    ensures var received := slot.log.received + if Reads(slot.dev, res) then res.bytes else [];
      ConnCallsOk(Slot(ReadDev(slot.dev, os, res).dev, slot.log.(received := received)),
                  calls + ReadCalls(slot.dev, res))
  {
    var d := slot.dev;
    if ReadCalls(d, res) == [] {
      NoCall(calls);
    } else {
      ReadRecord(calls, d.fd, d.rbuf.Available(), res, d.fd);
    }
  }

  lemma ReadConn(s: Sys, i: nat, res: ReadResult, k: nat, bufsize: nat)
    requires Layout(s, bufsize) && Enabled(s, Read(i, res)) && CallsOk(s) && 0 < k < |s.slots|
    ensures var t := Exec(s, Read(i, res));
      |t.slots| == |s.slots| && ConnCallsOk(t.slots[k], t.calls)
  {
    var d, t := s.slots[i].dev, Exec(s, Read(i, res));
    assert DevsOf(s)[i] == d;
    if i == k {
      ReadOwn(s.slots[k], s.os, res, s.calls, bufsize);
      var l := s.slots[k].log;
      assert t.slots[k].log == l.(received := l.received + if Reads(d, res) then res.bytes else []);
    } else {
      if ReadCalls(d, res) == [] {
        NoCall(s.calls);
      } else {
        ReadRecord(s.calls, d.fd, d.rbuf.Available(), res, s.slots[k].dev.fd);
        OtherFd(s, i, k, bufsize);
      }
      OtherConn(s.slots[k], s.calls, t.calls);
    }
  }

  lemma ReadLine(s: Sys, i: nat, res: ReadResult, bufsize: nat)
    requires Layout(s, bufsize) && Enabled(s, Read(i, res)) && CallsOk(s)
    ensures LineOk(Exec(s, Read(i, res)))
  {
    var d := s.slots[i].dev;
    assert DevsOf(s)[i] == d && DevsOf(s)[0] == s.slots[0].dev;
    if ReadCalls(d, res) == [] {
      NoCall(s.calls);
    } else {
      ReadRecord(s.calls, d.fd, d.rbuf.Available(), res, s.slots[0].dev.fd);
      if i > 0 {
        OtherFd(s, i, 0, bufsize);
        assert ConnCallsOk(s.slots[i], s.calls);
      }
    }
  }

  lemma WriteOwn(slot: Slot, os: set<int>, res: WriteResult, check: nat, end: nat, calls: seq<Call>, bufsize: nat)
    requires ConnCallsOk(slot, calls) && DevOk(slot.dev, bufsize)
    ensures ConnCallsOk(Slot(WriteDev(slot.dev, os, res, check, end).dev,
                             slot.log.(written := slot.log.written + WrittenBy(slot.dev, res, check))),
                        calls + WriteCalls(slot.dev, res, check))
  {
    var d := slot.dev;
    if WriteCalls(d, res, check) == [] {
      NoCall(calls);
    } else {
      WriteRecord(calls, d.fd, Offered(d), res, d.fd);
    }
  }

  lemma WriteConn(s: Sys, e: Event, k: nat, bufsize: nat)
    requires Layout(s, bufsize) && e.Write? && Enabled(s, e) && CallsOk(s) && 0 < k < |s.slots|
    ensures var t := Exec(s, e);
      |t.slots| == |s.slots| && ConnCallsOk(t.slots[k], t.calls)
  {
    var d, t := s.slots[e.i].dev, Exec(s, e);
    assert DevsOf(s)[e.i] == d;
    if e.i == k {
      WriteOwn(s.slots[k], s.os, e.write, e.check, e.end, s.calls, bufsize);
    } else {
      if WriteCalls(d, e.write, e.check) == [] {
        NoCall(s.calls);
      } else {
        WriteRecord(s.calls, d.fd, Offered(d), e.write, s.slots[k].dev.fd);
        OtherFd(s, e.i, k, bufsize);
      }
      OtherConn(s.slots[k], s.calls, t.calls);
    }
  }

  /** What a write adds to what went over the serial line. */
  lemma WriteLineOut(s: Sys, e: Event, bufsize: nat)
    requires Layout(s, bufsize) && e.Write? && Enabled(s, e) && CallsOk(s)
    ensures var later := s.calls + WriteCalls(s.slots[e.i].dev, e.write, e.check);
      && LineIn(later) == LineIn(s.calls)
      && LineOut(later) ==
           LineOut(s.calls) + (if e.i == 0 then WrittenBy(s.slots[0].dev, e.write, e.check) else [])
      && (s.slots[0].dev.fd != NO_FD ==> IsPort(later, s.slots[0].dev.fd))
  {
    var d := s.slots[e.i].dev;
    assert DevsOf(s)[e.i] == d && DevsOf(s)[0] == s.slots[0].dev;
    if WriteCalls(d, e.write, e.check) == [] {
      NoCall(s.calls);
    } else {
      WriteRecord(s.calls, d.fd, Offered(d), e.write, s.slots[0].dev.fd);
      if e.i > 0 {
        OtherFd(s, e.i, 0, bufsize);
        assert ConnCallsOk(s.slots[e.i], s.calls);
      }
    }
  }

  lemma WriteLine(s: Sys, e: Event, bufsize: nat)
    requires Layout(s, bufsize) && e.Write? && Enabled(s, e) && CallsOk(s)
    ensures LineOk(Exec(s, e))
  {
    var d := s.slots[e.i].dev;
    var bytes := WrittenBy(d, e.write, e.check);
    assert DevsOf(s)[e.i] == d;
    WriteLineOut(s, e, bufsize);
    Wire.WireBytesPlus(s.log.wire, bytes, e.check, e.end);
  }

  /** A descriptor made in an opening is not one in use. */
  lemma MasksConn(s: Sys, e: Event, k: nat, bufsize: nat)
    requires Layout(s, bufsize) && e.Masks? && Enabled(s, e) && CallsOk(s) && 0 < k < |s.slots|
    ensures var t := Exec(s, e);
      |t.slots| == |s.slots| && ConnCallsOk(t.slots[k], t.calls)
  {
    var d := s.slots[e.i].dev;
    OnlyOpensOrCloses(s, e, bufsize);
    MaskRecord(s.calls, d, e.opening, s.slots[k].dev.fd);
    if s.slots[k].dev.fd != NO_FD {
      HeldFd(s, k, bufsize);
    }
    MaskedSlot(s, e, k, bufsize);
  }

  lemma MaskedSlot(s: Sys, e: Event, k: nat, bufsize: nat)
    requires Layout(s, bufsize) && e.Masks? && Enabled(s, e) && k < |s.slots|
    ensures |Exec(s, e).slots| == |s.slots|
    ensures s.slots[k].dev.kind.Connection? ==> Exec(s, e).slots[k] == s.slots[k]
    ensures Exec(s, e).slots[k].dev.kind == s.slots[k].dev.kind
  {
    assert DevsOf(s)[k] == s.slots[k].dev;
    if e.i == k {
      MaskKeeps(s.slots[k].dev, s.os, e.opening, bufsize);
    }
  }

  lemma MasksLine(s: Sys, e: Event, bufsize: nat)
    requires Layout(s, bufsize) && e.Masks? && Enabled(s, e) && CallsOk(s)
    ensures LineOk(Exec(s, e))
  {
    var d := s.slots[e.i].dev;
    OnlyOpensOrCloses(s, e, bufsize);
    assert DevsOf(s)[0] == s.slots[0].dev;
    MaskKeeps(s.slots[0].dev, s.os, e.opening, bufsize);
    MaskRecord(s.calls, d, e.opening, s.slots[0].dev.fd);
    assert DevsOf(s)[e.i] == d;
    if s.slots[0].dev.fd != NO_FD {
      HeldFd(s, 0, bufsize);
    }
  }

  lemma AcceptLine(s: Sys, i: nat, fd: int, bufsize: nat)
    requires Layout(s, bufsize) && Enabled(s, Accept(i, fd)) && CallsOk(s)
    ensures LineOk(DoAccept(s, i, fd))
  {
    var t := DoAccept(s, i, fd);
    assert |t.slots| > 0 && t.slots[0] == s.slots[0] && t.log == s.log;
    AcceptRecord(s.calls, s.slots[i].dev.fd, fd, s.slots[0].dev.fd);
    if s.slots[0].dev.fd != NO_FD {
      HeldFd(s, 0, bufsize);
    }
  }

  /** A connection accepted starts with nothing written and nothing read. */
  lemma AcceptCalls(s: Sys, i: nat, fd: int, bufsize: nat)
    requires Layout(s, bufsize) && Enabled(s, Accept(i, fd)) && CallsOk(s)
    ensures CallsOk(DoAccept(s, i, fd))
  {
    var t := DoAccept(s, i, fd);
    AcceptLine(s, i, fd, bufsize);
    forall k | 0 < k < |t.slots|
      ensures ConnCallsOk(t.slots[k], t.calls)
    {
      AcceptConn(s, i, fd, k, bufsize);
    }
  }

  lemma AcceptConn(s: Sys, i: nat, fd: int, k: nat, bufsize: nat)
    requires Layout(s, bufsize) && Enabled(s, Accept(i, fd)) && CallsOk(s)
    requires 0 < k < |DoAccept(s, i, fd).slots|
    ensures ConnCallsOk(DoAccept(s, i, fd).slots[k], DoAccept(s, i, fd).calls)
  {
    var t, on := DoAccept(s, i, fd), s.slots[i].dev.fd;
    if fd != NO_FD && k == FreeSlot(s.slots, 1) {
      AcceptRecord(s.calls, on, fd, fd);
    } else {
      AcceptRecord(s.calls, on, fd, s.slots[k].dev.fd);
      if s.slots[k].dev.fd != NO_FD {
        HeldFd(s, k, bufsize);
      }
      OtherConn(s.slots[k], s.calls, t.calls);
    }
  }

  lemma {:induction false} ServeFromLine(s: Sys, k: nat, len: nat, ticks: seq<Tick>)
    requires k > 0 && |ticks| == |s.slots|
    ensures var t := ServeFrom(s, k, len, ticks);
      && t.calls == s.calls && t.log.wire == s.log.wire && t.log.read == s.log.read
    decreases |s.slots| - k
  {
    if k < |s.slots| {
      ServeFromLine(ServeSlot(s, k, len, ticks[k]), k + 1, len, ticks);
    }
  }

  /** A process cycle makes no such call. */
  lemma CycleCalls(s: Sys, ticks: seq<Tick>, bufsize: nat)
    requires Layout(s, bufsize) && Enabled(s, Cycle(ticks)) && CallsOk(s)
    ensures CallsOk(DoCycle(s, ticks)) && DoCycle(s, ticks).calls == s.calls
  {
    if Running(s) {
      var b, t, len := BeginCycle(s), DoCycle(s, ticks), |SerialBytes(s)|;
      ServeFromLine(b, 1, len, ticks);
      CycleShells(s, ticks, bufsize);
      forall k | 0 < k < |t.slots|
        ensures ConnCallsOk(t.slots[k], t.calls)
      {
        Streams.ServeFromOut(b, 1, len, ticks, k);
        assert b.slots[k] == s.slots[k] && ConnCallsOk(s.slots[k], s.calls);
      }
    }
  }

  lemma CloseCalls(s: Sys, e: Event, bufsize: nat)
    requires Layout(s, bufsize) && (e.Except? || e.Shut?) && Enabled(s, e) && CallsOk(s)
    ensures CallsOk(Exec(s, e))
  {
    OnlyOpensOrCloses(s, e, bufsize);
    assert DevsOf(s)[e.i] == s.slots[e.i].dev && DevsOf(s)[0] == s.slots[0].dev;
    CloseKeeps(s.slots[e.i].dev, s.os, IOFLAG_NONE, bufsize);
    CloseKeeps(s.slots[e.i].dev, s.os, IOFLAG_INACTIVE, bufsize);
    forall k | 0 < k < |Exec(s, e).slots|
      ensures ConnCallsOk(Exec(s, e).slots[k], Exec(s, e).calls)
    {
      assert ConnCallsOk(s.slots[k], s.calls);
    }
  }

  lemma HandlerCalls(s: Sys, e: Event, bufsize: nat)
    requires Layout(s, bufsize) && Enabled(s, e) && CallsOk(s) && (e.Masks? || e.Read? || e.Write?)
    ensures |Exec(s, e).slots| == |s.slots|
    ensures forall k :: 0 < k < |s.slots| ==> ConnCallsOk(Exec(s, e).slots[k], Exec(s, e).calls)
  {
    forall k | 0 < k < |s.slots|
      ensures |Exec(s, e).slots| == |s.slots| && ConnCallsOk(Exec(s, e).slots[k], Exec(s, e).calls)
    {
      match e
      case Masks(_, _, _) => MasksConn(s, e, k, bufsize);
      case Read(i, res) => ReadConn(s, i, res, k, bufsize);
      case Write(_, _, _, _) => WriteConn(s, e, k, bufsize);
    }
  }

  /** Every event keeps the record and the histories in agreement. */
  lemma ExecCalls(s: Sys, e: Event, bufsize: nat)
    requires Layout(s, bufsize) && Enabled(s, e) && CallsOk(s)
    ensures CallsOk(Exec(s, e))
  {
    match e
    case Cycle(ticks) => CycleCalls(s, ticks, bufsize);
    case Accept(i, fd) => AcceptCalls(s, i, fd, bufsize);
    case Masks(i, _, _) =>
      MasksLine(s, e, bufsize);
      HandlerCalls(s, e, bufsize);
    case Read(i, res) =>
      ReadLine(s, i, res, bufsize);
      HandlerCalls(s, e, bufsize);
    case Write(i, _, _, _) =>
      WriteLine(s, e, bufsize);
      HandlerCalls(s, e, bufsize);
    case _ => CloseCalls(s, e, bufsize);
  }
}
