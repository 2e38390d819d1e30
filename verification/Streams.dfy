/** From the serial device to the clients: what a process cycle broadcasts, and the
    stream each connection receives. */
module Streams {
  import opened Bytes
  import opened Buffers
  import opened Timers
  import opened Devices
  import opened Systems
  import opened Shapes

  lemma DeliverySnoc(ds: seq<Delivery>, d: Delivery)
    ensures Deliveries(ds + [d]) == Deliveries(ds) + d.Fitted()
    ensures Offers(ds + [d]) == Offers(ds) + d.bytes
  {
    assert (ds + [d])[..|ds|] == ds;
  }

  /** When every chunk fitted, nothing is missing. */
  lemma {:induction false} WholeDeliveries(ds: seq<Delivery>)
    requires forall i :: 0 <= i < |ds| ==> ds[i].Whole()
    ensures Deliveries(ds) == Offers(ds)
  {
    if ds != [] {
      WholeDeliveries(ds[..|ds| - 1]);
    }
  }

  /** A connection: the chunks broadcast to it are the serial stream moved since it was
      accepted, and the bytes written to its socket are a front of what fitted of them.
      While it is live, the bytes still queued are the rest. */
  ghost predicate StreamOk(slot: Slot, moved: seq<byte>) {
    slot.dev.kind.Connection? ==>
      && slot.log.moved <= |moved|
      && Offers(slot.log.chunks) == moved[slot.log.moved..]
      && slot.log.written <= Deliveries(slot.log.chunks)
      && (slot.dev.fd != NO_FD ==> slot.log.written + slot.dev.tbuf.contents == Deliveries(slot.log.chunks))
  }

  ghost predicate StreamsOk(s: Sys) {
    forall k :: 0 < k < |s.slots| ==> StreamOk(s.slots[k], s.log.moved)
  }

  // ---- One cycle ----

  /** Serving a slot leaves the others alone, but for the serial transmit buffer. */
  lemma ServeSlotOthers(s: Sys, k: nat, len: nat, tick: Tick)
    requires 0 < k < |s.slots|
    ensures var t := ServeSlot(s, k, len, tick);
      && |t.slots| == |s.slots| && t.copy == s.copy
      && t.log.moved == s.log.moved
      && t.slots[0].dev == s.slots[0].dev.(tbuf := t.slots[0].dev.tbuf)
      && forall j :: 0 < j < |s.slots| && j != k ==> t.slots[j] == s.slots[j]
  {
  }

  /** What serving a slot does to its own outgoing side. */
  lemma ServeSlotOut(s: Sys, k: nat, len: nat, tick: Tick)
    requires 0 < k < |s.slots|
    ensures var t := ServeSlot(s, k, len, tick);
      if s.slots[k].dev.listener then t.slots[k] == s.slots[k]
      else
        var b := Broadcast(s.slots[k], Fit(s.copy.contents, len));
        && t.slots[k].dev.tbuf == b.dev.tbuf && t.slots[k].dev.fd == b.dev.fd && t.slots[k].dev.kind == b.dev.kind
        && t.slots[k].log.chunks == b.log.chunks && t.slots[k].log.written == b.log.written
        && t.slots[k].log.moved == b.log.moved && t.slots[k].log.received == b.log.received
  {
  }

  lemma BroadcastStream(slot: Slot, moved: seq<byte>, chunk: seq<byte>)
    requires StreamOk(slot, moved)
    ensures StreamOk(Broadcast(slot, chunk), moved + chunk)
  {
    if chunk == [] {
      assert moved + chunk == moved;
    } else {
      DeliverySnoc(slot.log.chunks, Delivery(chunk, slot.dev.tbuf.Available()));
    }
  }

  /** Each slot from `k` on gets the chunk, whatever the order and the other slots. */
  lemma {:induction false} ServeFromOut(s: Sys, k: nat, len: nat, ticks: seq<Tick>, j: nat)
    requires k > 0 && |ticks| == |s.slots| && 0 < j < |s.slots|
    ensures var t := ServeFrom(s, k, len, ticks);
      && t.copy == s.copy && t.log.moved == s.log.moved
      && t.slots[0].dev == s.slots[0].dev.(tbuf := t.slots[0].dev.tbuf)
      && (j < k || s.slots[j].dev.listener ==> t.slots[j] == s.slots[j])
      && (j >= k && !s.slots[j].dev.listener ==>
            var b := Broadcast(s.slots[j], Fit(s.copy.contents, len));
            && t.slots[j].dev.tbuf == b.dev.tbuf && t.slots[j].dev.fd == b.dev.fd && t.slots[j].dev.kind == b.dev.kind
            && t.slots[j].log.chunks == b.log.chunks && t.slots[j].log.written == b.log.written
            && t.slots[j].log.moved == b.log.moved && t.slots[j].log.received == b.log.received)
    decreases |s.slots| - k
  {
    if k < |s.slots| {
      ServeSlotOthers(s, k, len, ticks[k]);
      ServeSlotOut(s, k, len, ticks[k]);
      ServeFromOut(ServeSlot(s, k, len, ticks[k]), k + 1, len, ticks, j);
    }
  }

  /** The copy buffer is empty before and after a cycle and never too small: the cycle
      takes the whole receive buffer of an open serial device, and every connection gets
      the prefix of that chunk that its own free space allows. */
  lemma CycleBroadcasts(s: Sys, ticks: seq<Tick>, bufsize: nat, j: nat)
    requires Layout(s, bufsize) && Enabled(s, Cycle(ticks)) && Running(s)
    requires 0 < j < |s.slots| && !s.slots[j].dev.listener
    ensures var t, serial := Exec(s, Cycle(ticks)), s.slots[0].dev;
      var chunk := if serial.state.IsOpen() then serial.rbuf.contents else [];
      && s.copy.contents == t.copy.contents == []
      && t.log.moved == s.log.moved + chunk
      && t.slots[0].dev.rbuf.contents == (if serial.state.IsOpen() then [] else serial.rbuf.contents)
      && t.slots[j].dev.tbuf.contents ==
           s.slots[j].dev.tbuf.contents + Fit(chunk, s.slots[j].dev.tbuf.Available())
  {
    assert DevsOf(s)[0] == s.slots[0].dev;
    var bytes := SerialBytes(s);
    var b := BeginCycle(s);
    assert Fit(b.copy.contents, |bytes|) == bytes;
    ServeFromOut(b, 1, |bytes|, ticks, j);
  }

  lemma CycleStreams(s: Sys, ticks: seq<Tick>, bufsize: nat)
    requires Layout(s, bufsize) && Enabled(s, Cycle(ticks)) && StreamsOk(s)
    ensures StreamsOk(DoCycle(s, ticks))
  {
    if Running(s) {
      var bytes := SerialBytes(s);
      var b, t := BeginCycle(s), DoCycle(s, ticks);
      assert b.copy.contents == bytes && Fit(b.copy.contents, |bytes|) == bytes by {
        assert DevsOf(s)[0] == s.slots[0].dev;
      }
      forall j | 0 < j < |t.slots|
        ensures StreamOk(t.slots[j], t.log.moved)
      {
        assert DevsOf(s)[j] == s.slots[j].dev && b.slots[j] == s.slots[j];
        ServeFromOut(b, 1, |bytes|, ticks, j);
        BroadcastStream(s.slots[j], s.log.moved, bytes);
      }
    }
  }

  // ---- The other events ----

  lemma ReadStream(slot: Slot, os: set<int>, res: ReadResult, moved: seq<byte>, bufsize: nat)
    requires StreamOk(slot, moved) && DevOk(slot.dev, bufsize)
    ensures var d := ReadDev(slot.dev, os, res).dev;
      forall log: ConnLog :: log == slot.log.(received := log.received) ==> StreamOk(Slot(d, log), moved)
  {
  }

  lemma WriteStream(slot: Slot, os: set<int>, res: WriteResult, check: nat, end: nat, moved: seq<byte>, bufsize: nat)
    requires StreamOk(slot, moved) && DevOk(slot.dev, bufsize) && !slot.dev.kind.SerialPort?
    requires res.Wrote? ==> res.len <= |Offered(slot.dev)|
    ensures StreamOk(Slot(WriteDev(slot.dev, os, res, check, end).dev,
                          slot.log.(written := slot.log.written + WrittenBy(slot.dev, res, check))), moved)
  {
    var d := slot.dev;
    if Writes(d, check) && res.Wrote? {
      assert d.tbuf.contents == Fit(Offered(d), res.len) + d.tbuf.Drop(res.len).contents;
    }
  }

  lemma ReadStreams(s: Sys, i: nat, res: ReadResult, bufsize: nat)
    requires Layout(s, bufsize) && Enabled(s, Read(i, res)) && StreamsOk(s)
    ensures StreamsOk(DoRead(s, i, res))
  {
    assert DevsOf(s)[i] == s.slots[i].dev;
    if i > 0 {
      ReadStream(s.slots[i], s.os, res, s.log.moved, bufsize);
    }
  }

  lemma WriteStreams(s: Sys, i: nat, res: WriteResult, check: nat, end: nat, bufsize: nat)
    requires Layout(s, bufsize) && Enabled(s, Write(i, res, check, end)) && StreamsOk(s)
    ensures StreamsOk(DoWrite(s, i, res, check, end))
  {
    assert DevsOf(s)[i] == s.slots[i].dev;
    if i > 0 {
      WriteStream(s.slots[i], s.os, res, check, end, s.log.moved, bufsize);
    }
  }

  lemma ExecStreams(s: Sys, e: Event, bufsize: nat)
    requires Layout(s, bufsize) && Enabled(s, e) && StreamsOk(s)
    ensures StreamsOk(Exec(s, e))
  {
    match e
    case Cycle(ticks) => CycleStreams(s, ticks, bufsize);
    case Read(i, res) => ReadStreams(s, i, res, bufsize);
    case Write(i, res, check, end) => WriteStreams(s, i, res, check, end, bufsize);
    case Accept(i, fd) =>
    case _ => OnlyOpensOrCloses(s, e, bufsize);
  }
}
