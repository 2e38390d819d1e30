/** One pass of the selector loop: filling the descriptor sets, and calling handlers
    for the descriptors that are ready. */
module Passes {
  import opened Bytes
  import opened Buffers
  import opened Devices
  import opened Systems
  import opened Shapes

  // ---- Filling the sets ----

  /** The sets, how many devices are active, and the highest descriptor among those. */
  datatype Status = Status(bits: Bits, active: nat, highest: int)

  const NO_BITS := Bits({}, {}, {})

  /** Setting the masks of one device; `fd` is its descriptor afterwards. */
  function MaskOne(d: Dev, fd: int, time: nat, st: Status): Status {
    var m := MaskBits(d, time, st.bits);
    if m.active then Status(m.bits, st.active + 1, Max(st.highest, fd))
    else Status(m.bits, st.active, st.highest)
  }

  /** The events set the masks of the slots up to `n`, in order. */
  ghost predicate MaskPass(es: seq<Event>, n: nat) {
    |es| == n && forall i :: 0 <= i < n ==> es[i].Masks? && es[i].i == i
  }

  lemma MaskPassFront(es: seq<Event>, n: nat)
    requires n > 0 && MaskPass(es, n)
    ensures MaskPass(es[..n - 1], n - 1) && es[n - 1].Masks? && es[n - 1].i == n - 1
  {
  }

  ghost function PassStatus(s: Sys, es: seq<Event>, before: Bits): Status
    requires Feasible(s, es)
    requires forall i :: 0 <= i < |es| ==> es[i].Masks?
  {
    if es == [] then Status(before, 0, 0)
    else
      var front, e := es[..|es| - 1], es[|es| - 1];
      MaskOne(Run(s, front).slots[e.i].dev, Run(s, es).slots[e.i].dev.fd, e.time, PassStatus(s, front, before))
  }

  /** Devices that can be read from: listeners that are up, and others with room. */
  predicate WantsRead(d: Dev) {
    d.state.Rank() >= Pending.Rank() && (d.listener || (d.state.IsOpen() && d.rbuf.Available() > 0))
  }

  /** Devices with pending output. */
  predicate WantsWrite(d: Dev) {
    d.state.IsOpen() && !d.listener && d.tbuf.contents != []
  }

  predicate WantsExcept(d: Dev) {
    d.state.IsOpen()
  }

  predicate HasFd(d: Dev) {
    d.fd != NO_FD
  }

  /** The descriptor of a device that wants something. */
  function Own(d: Dev, wants: Dev -> bool): set<int> {
    if wants(d) then {d.fd} else {}
  }

  /** The descriptors of the devices up to `n` that want something. */
  function Wanted(slots: seq<Slot>, n: nat, wants: Dev -> bool): set<int>
    requires n <= |slots|
  {
    if n == 0 then {}
    else
      Wanted(slots, n - 1, wants) + Own(slots[n - 1].dev, wants)
  }

  lemma {:induction false} WantedMembers(slots: seq<Slot>, n: nat, wants: Dev -> bool, fd: int)
    requires n <= |slots|
    ensures fd in Wanted(slots, n, wants) <==>
      exists k :: 0 <= k < n && slots[k].dev.fd == fd && wants(slots[k].dev)
  {
    if n > 0 {
      WantedMembers(slots, n - 1, wants, fd);
    }
  }

  /** Clearing the descriptor of slot `n` removes nothing an earlier slot set. */
  lemma {:induction false} ClearsNoOther(s: Sys, n: nat, m: nat, wants: Dev -> bool, bufsize: nat)
    requires Layout(s, bufsize) && m <= n < |s.slots|
    requires forall d: Dev :: wants(d) ==> d.state.Rank() >= Pending.Rank()
    ensures s.slots[n].dev.fd !in Wanted(s.slots, m, wants)
  {
    if m > 0 {
      ClearsNoOther(s, n, m - 1, wants, bufsize);
      assert DevsOf(s)[m - 1] == s.slots[m - 1].dev && DevsOf(s)[n] == s.slots[n].dev;
    }
  }

  /** Setting the masks of a device between two events: whatever was set of its own
      descriptor, what it wants is what is set. */
  lemma MaskOneExact(d: Dev, fd: int, time: nat, st: Status, bufsize: nat)
    requires DevOk(d, bufsize)
    requires d.fd != NO_FD ==> fd == d.fd
    ensures var u := MaskOne(d, fd, time, st);
      && u.bits.r == (st.bits.r - Own(d, HasFd)) + Own(d, WantsRead)
      && u.bits.w == (st.bits.w - Own(d, HasFd)) + Own(d, WantsWrite)
      && u.bits.x == (st.bits.x - Own(d, HasFd)) + Own(d, WantsExcept)
      && u.active == st.active + (if d.state.IsOpen() then 1 else 0)
      && u.highest == (if d.state.IsOpen() then Max(st.highest, d.fd) else st.highest)
  {
  }

  /** How many of the first devices are open. */
  function CountOpen(slots: seq<Slot>, n: nat): nat
    requires n <= |slots|
  {
    if n == 0 then 0 else CountOpen(slots, n - 1) + if slots[n - 1].dev.state.IsOpen() then 1 else 0
  }

  lemma {:induction false} SomeOpen(slots: seq<Slot>, n: nat)
    requires n <= |slots|
    ensures CountOpen(slots, n) > 0 <==> exists k :: 0 <= k < n && slots[k].dev.state.IsOpen()
  {
    if n > 0 {
      SomeOpen(slots, n - 1);
    }
  }

  /** Devices that were open, or not reached yet, are as they were; of the others, only the
      descriptor and the state may have changed, and of connections nothing. */
  ghost predicate Untouched(s: Sys, t: Sys, n: nat) {
    && |t.slots| == |s.slots|
    && (forall k :: 0 <= k < |s.slots| && (k >= n || s.slots[k].dev.fd != NO_FD || s.slots[k].dev.kind.Connection?) ==>
          t.slots[k] == s.slots[k])
    && (forall k :: 0 <= k < |s.slots| ==>
          t.slots[k].dev == s.slots[k].dev.(fd := t.slots[k].dev.fd, state := t.slots[k].dev.state))
  }

  lemma MaskStep(s: Sys, t: Sys, e: Event, n: nat, bufsize: nat)
    requires Layout(s, bufsize) && Layout(t, bufsize) && Untouched(s, t, n) && n < |s.slots|
    requires Enabled(t, e) && e.Masks? && e.i == n
    ensures Layout(Exec(t, e), bufsize) && Untouched(s, Exec(t, e), n + 1)
    ensures t.slots[n] == s.slots[n]
    ensures s.slots[n].dev.fd != NO_FD ==> Exec(t, e).slots[n].dev.fd == s.slots[n].dev.fd
  {
    OnlyOpensOrCloses(t, e, bufsize);
    assert DevsOf(t)[n] == t.slots[n].dev;
    MaskKeeps(t.slots[n].dev, t.os, e.opening, bufsize);
  }

  /** What a pass over the first slots makes of a set: every descriptor they had is
      cleared, and those they want are set; others stay as they were. */
  function Refilled(slots: seq<Slot>, n: nat, before: set<int>, wants: Dev -> bool): set<int>
    requires n <= |slots|
  {
    (before - Wanted(slots, n, HasFd)) + Wanted(slots, n, wants)
  }

  ghost predicate Exact(s: Sys, n: nat, before: Bits, st: Status)
    requires n <= |s.slots|
  {
    && st.bits.r == Refilled(s.slots, n, before.r, WantsRead)
    && st.bits.w == Refilled(s.slots, n, before.w, WantsWrite)
    && st.bits.x == Refilled(s.slots, n, before.x, WantsExcept)
    && (forall k :: 0 <= k < n && s.slots[k].dev.state.IsOpen() ==> s.slots[k].dev.fd <= st.highest)
    && (st.highest == 0 || exists k :: 0 <= k < n && s.slots[k].dev.state.IsOpen() && s.slots[k].dev.fd == st.highest)
    && st.active == CountOpen(s.slots, n)
  }

  lemma RefilledStep(s: Sys, n: nat, before: set<int>, wants: Dev -> bool, bufsize: nat)
    requires Layout(s, bufsize) && n < |s.slots|
    requires forall d: Dev :: wants(d) ==> d.state.Rank() >= Pending.Rank()
    ensures var d := s.slots[n].dev;
      Refilled(s.slots, n + 1, before, wants) == (Refilled(s.slots, n, before, wants) - Own(d, HasFd)) + Own(d, wants)
  {
    ClearsNoOther(s, n, n, wants, bufsize);
  }

  lemma ExactStep(s: Sys, n: nat, before: Bits, st: Status, fd: int, time: nat, bufsize: nat)
    requires Layout(s, bufsize) && n < |s.slots| && Exact(s, n, before, st)
    requires s.slots[n].dev.fd != NO_FD ==> fd == s.slots[n].dev.fd
    ensures Exact(s, n + 1, before, MaskOne(s.slots[n].dev, fd, time, st))
  {
    var d := s.slots[n].dev;
    assert DevsOf(s)[n] == d;
    RefilledStep(s, n, before.r, WantsRead, bufsize);
    RefilledStep(s, n, before.w, WantsWrite, bufsize);
    RefilledStep(s, n, before.x, WantsExcept, bufsize);
    MaskOneExact(d, fd, time, st, bufsize);
  }

  /** A pass from any sets clears the descriptors of all devices in them and sets exactly
      those of the devices that want to be read, written or watched, by their state when the
      pass began: a device opened on the way is not yet among them. */
  lemma {:induction false} PassIsExact(s: Sys, es: seq<Event>, n: nat, before: Bits, bufsize: nat)
    requires Layout(s, bufsize) && n <= |s.slots| && MaskPass(es, n) && Feasible(s, es)
    ensures Layout(Run(s, es), bufsize) && Untouched(s, Run(s, es), n)
    ensures Exact(s, n, before, PassStatus(s, es, before))
    decreases n
  {
    if n > 0 {
      MaskPassFront(es, n);
      var front, e := es[..n - 1], es[n - 1];
      PassIsExact(s, front, n - 1, before, bufsize);
      MaskStep(s, Run(s, front), e, n - 1, bufsize);
      ExactStep(s, n - 1, before, PassStatus(s, front, before), Run(s, es).slots[n - 1].dev.fd, e.time, bufsize);
    }
  }

  /** Of a pass over all slots: what stays, and which bits are set. */
  lemma PassKeeps(s: Sys, masks: seq<Event>, bufsize: nat)
    requires Layout(s, bufsize) && MaskPass(masks, |s.slots|) && Feasible(s, masks)
    ensures Layout(Run(s, masks), bufsize) && Untouched(s, Run(s, masks), |s.slots|)
  {
    PassIsExact(s, masks, |s.slots|, NO_BITS, bufsize);
  }

  lemma PassBits(s: Sys, masks: seq<Event>, before: Bits, bufsize: nat)
    requires Layout(s, bufsize) && MaskPass(masks, |s.slots|) && Feasible(s, masks)
    ensures var st, n := PassStatus(s, masks, before), |s.slots|;
      && st.bits.r == Refilled(s.slots, n, before.r, WantsRead)
      && st.bits.w == Refilled(s.slots, n, before.w, WantsWrite)
      && st.bits.x == Refilled(s.slots, n, before.x, WantsExcept)
  {
    PassIsExact(s, masks, |s.slots|, before, bufsize);
  }

  /** From cleared sets, only the wanted descriptors are set, and none lies above the
      highest. */
  lemma ClearedPass(s: Sys, es: seq<Event>, bufsize: nat)
    requires Layout(s, bufsize) && MaskPass(es, |s.slots|) && Feasible(s, es)
    ensures var st, n := PassStatus(s, es, NO_BITS), |s.slots|;
      && st.bits.r == Wanted(s.slots, n, WantsRead)
      && st.bits.w == Wanted(s.slots, n, WantsWrite)
      && st.bits.x == Wanted(s.slots, n, WantsExcept)
      && forall fd :: fd in st.bits.r || fd in st.bits.w || fd in st.bits.x ==> fd <= st.highest
  {
    var st, n := PassStatus(s, es, NO_BITS), |s.slots|;
    PassIsExact(s, es, n, NO_BITS, bufsize);
    forall fd | fd in st.bits.r || fd in st.bits.w || fd in st.bits.x
      ensures fd <= st.highest
    {
      WantedIsOpen(s, fd, bufsize);
    }
  }

  lemma WantedIsOpen(s: Sys, fd: int, bufsize: nat)
    requires Layout(s, bufsize)
    requires var n := |s.slots|;
      || fd in Wanted(s.slots, n, WantsRead)
      || fd in Wanted(s.slots, n, WantsWrite)
      || fd in Wanted(s.slots, n, WantsExcept)
    ensures exists k :: 0 <= k < |s.slots| && s.slots[k].dev.state.IsOpen() && s.slots[k].dev.fd == fd
  {
    WantedMembers(s.slots, |s.slots|, WantsRead, fd);
    WantedMembers(s.slots, |s.slots|, WantsWrite, fd);
    WantedMembers(s.slots, |s.slots|, WantsExcept, fd);
    var k :| 0 <= k < |s.slots| && s.slots[k].dev.fd == fd &&
      (WantsRead(s.slots[k].dev) || WantsWrite(s.slots[k].dev) || WantsExcept(s.slots[k].dev));
    assert DevsOf(s)[k] == s.slots[k].dev;
  }

  /** The highest descriptor of the open devices. */
  ghost predicate HighestOpen(slots: seq<Slot>, fd: int) {
    && (forall k :: 0 <= k < |slots| && slots[k].dev.state.IsOpen() ==> slots[k].dev.fd <= fd)
    && (exists k :: 0 <= k < |slots| && slots[k].dev.state.IsOpen() && slots[k].dev.fd == fd)
  }

  /** A pass finds a device active exactly when one is open, and the highest of those. */
  lemma PassCounts(s: Sys, masks: seq<Event>, before: Bits, bufsize: nat)
    requires Layout(s, bufsize) && MaskPass(masks, |s.slots|) && Feasible(s, masks)
    ensures var st := PassStatus(s, masks, before);
      && (st.active > 0 <==> exists k :: 0 <= k < |s.slots| && s.slots[k].dev.state.IsOpen())
      && (st.active > 0 ==> HighestOpen(s.slots, st.highest))
  {
    PassIsExact(s, masks, |s.slots|, before, bufsize);
    ExactCounts(s, before, PassStatus(s, masks, before), bufsize);
  }

  lemma ExactCounts(s: Sys, before: Bits, st: Status, bufsize: nat)
    requires Layout(s, bufsize) && Exact(s, |s.slots|, before, st)
    ensures st.active > 0 <==> exists k :: 0 <= k < |s.slots| && s.slots[k].dev.state.IsOpen()
    ensures st.active > 0 ==> HighestOpen(s.slots, st.highest)
  {
    SomeOpen(s.slots, |s.slots|);
    if st.active > 0 {
      var k :| 0 <= k < |s.slots| && s.slots[k].dev.state.IsOpen();
      assert DevsOf(s)[k] == s.slots[k].dev && s.slots[k].dev.fd >= 0;
    }
  }

  /** A mask pass under way: it is in `t`, after the first slots. */
  ghost predicate Passing(s: Sys, es: seq<Event>, t: Sys, before: Bits, st: Status) {
    && MaskPass(es, |es|) && Feasible(s, es) && t == Run(s, es) && SameApp(s, t)
    && st == PassStatus(s, es, before)
  }

  lemma PassSnoc(s: Sys, es: seq<Event>, t: Sys, before: Bits, st: Status, e: Event)
    requires Passing(s, es, t, before, st)
    requires e.Masks? && e.i == |es| && Enabled(t, e) && SameApp(t, Exec(t, e))
    ensures Passing(s, es + [e], Exec(t, e), before,
                    MaskOne(t.slots[e.i].dev, Exec(t, e).slots[e.i].dev.fd, e.time, st))
  {
    RunSnoc(s, es, e);
    assert (es + [e])[..|es|] == es;
  }

  // ---- Calling the handlers ----

  predicate IsSet(d: Dev, bits: set<int>) {
    d.fd != NO_FD && d.fd in bits
  }

  /** The handlers of a slot: its read handler, which accepts if it is a listener, its
      write handler, and its exception handler. */
  predicate HandlerEvent(s: Sys, k: nat, phase: nat, e: Event)
    requires k < |s.slots|
  {
    if phase == 0 then (if s.slots[k].dev.listener then e.Accept? else e.Read?) && e.i == k
    else if phase == 1 then e.Write? && e.i == k
    else e == Except(k)
  }

  function BitsFor(b: Bits, phase: nat): set<int> {
    if phase == 0 then b.r else if phase == 1 then b.w else b.x
  }

  function NextSlot(k: nat, phase: nat): nat {
    if phase < 2 then k else k + 1
  }

  function NextPhase(phase: nat): nat {
    if phase < 2 then phase + 1 else 0
  }

  /** The events are a way of dispatching from slot `k` on: the read, write and
      exception handler of each slot whose descriptor is set when its turn comes,
      while `ready` descriptors are left when a slot is reached. */
  ghost predicate Dispatches(s: Sys, k: nat, phase: nat, ready: int, b: Bits, es: seq<Event>)
    requires phase < 3
    decreases |es|, |s.slots| - k, 3 - phase
  {
    if k >= |s.slots| || (phase == 0 && ready <= 0) then es == []
    else if IsSet(s.slots[k].dev, BitsFor(b, phase)) then
      && es != [] && HandlerEvent(s, k, phase, es[0]) && Enabled(s, es[0])
      && Dispatches(Exec(s, es[0]), NextSlot(k, phase), NextPhase(phase), ready - 1, b, es[1..])
    else
      Dispatches(s, NextSlot(k, phase), NextPhase(phase), ready, b, es)
  }

  /** Every device read from has room when it is read, and keeps every byte. */
  ghost predicate ReadsWithRoom(s: Sys, es: seq<Event>)
    decreases |es|
  {
    es == [] ||
    (&& Enabled(s, es[0])
     && (es[0].Read? ==>
           var d := s.slots[es[0].i].dev;
           && d.fd != NO_FD && d.rbuf.Available() > 0
           && (es[0].read.Data? ==>
                 Exec(s, es[0]).slots[es[0].i].dev.rbuf.contents == d.rbuf.contents + es[0].read.bytes))
     && ReadsWithRoom(Exec(s, es[0]), es[1..]))
  }

  /** Slots from `k` on whose descriptor is set for reading have room. */
  ghost predicate RoomFrom(s: Sys, k: nat, r: set<int>) {
    forall j :: k <= j < |s.slots| && IsSet(s.slots[j].dev, r) && !s.slots[j].dev.listener ==>
      s.slots[j].dev.rbuf.Available() > 0
  }

  /** A handler leaves the room in later slots alone; a connection accepted on the way
      starts empty, even if its descriptor was in the sets under another device. */
  lemma HandlerKeepsRoom(s: Sys, k: nat, e: Event, r: set<int>, bufsize: nat)
    requires Layout(s, bufsize) && Enabled(s, e) && k < |s.slots| && RoomFrom(s, k + 1, r)
    requires e.Read? || e.Write? || e.Except? || e.Accept?
    requires e.i == k
    ensures Layout(Exec(s, e), bufsize) && RoomFrom(Exec(s, e), k + 1, r) && k < |Exec(s, e).slots|
  {
    ExecShape(s, e, bufsize);
    assert DevsOf(s)[k] == s.slots[k].dev;
  }

  lemma ReadStoresAll(s: Sys, k: nat, res: ReadResult, bufsize: nat)
    requires Layout(s, bufsize) && Enabled(s, Read(k, res)) && s.slots[k].dev.fd != NO_FD && res.Data?
    ensures Exec(s, Read(k, res)).slots[k].dev.rbuf.contents == s.slots[k].dev.rbuf.contents + res.bytes
  {
    assert DevsOf(s)[k] == s.slots[k].dev;
    assert Fit(res.bytes, s.slots[k].dev.rbuf.Available()) == res.bytes;
  }

  lemma {:induction false} DispatchReadsWithRoom(s: Sys, k: nat, phase: nat, ready: int, b: Bits,
                                               es: seq<Event>, bufsize: nat)
    requires Layout(s, bufsize) && phase < 3 && Dispatches(s, k, phase, ready, b, es)
    requires RoomFrom(s, if phase == 0 then k else k + 1, b.r)
    ensures ReadsWithRoom(s, es)
    decreases |es|, |s.slots| - k, 3 - phase
  {
    if k < |s.slots| && (phase > 0 || ready > 0) {
      if IsSet(s.slots[k].dev, BitsFor(b, phase)) {
        HandlerKeepsRoom(s, k, es[0], b.r, bufsize);
        if es[0].Read? && es[0].read.Data? {
          ReadStoresAll(s, k, es[0].read, bufsize);
        }
        DispatchReadsWithRoom(Exec(s, es[0]), NextSlot(k, phase), NextPhase(phase), ready - 1, b, es[1..], bufsize);
      } else {
        DispatchReadsWithRoom(s, NextSlot(k, phase), NextPhase(phase), ready, b, es, bufsize);
      }
    }
  }

  // ---- Laps of the loop ----

  /** One time around the selector loop: the masks set, the calls of select, the sets as it
      left them, how many descriptors it found ready, and the handlers called. */
  datatype Lap = Lap(masks: seq<Event>, selects: seq<SelectCall>, kept: Bits, ready: int, handled: seq<Event>)

  /** Select is called when a device is active, up to the highest of their descriptors and
      with the sets the masks left. */
  function SelectsOf(st: Status, ready: int): seq<SelectCall> {
    if st.active > 0 then [SelectCall(st.highest + 1, st.bits, ready)] else []
  }

  /** Select is asked about descriptors up to the highest and drops those not ready. */
  ghost predicate Keeps(st: Status, kept: Bits) {
    && kept.r <= st.bits.r && kept.w <= st.bits.w && kept.x <= st.bits.x
    && forall fd :: fd in kept.r || fd in kept.w || fd in kept.x ==> fd <= st.highest
  }

  /** Every descriptor select looks at is open; otherwise it fails. */
  ghost predicate AllOpen(st: Status, os: set<int>) {
    OpenUpTo(st.bits.r, st.highest, os) && OpenUpTo(st.bits.w, st.highest, os) && OpenUpTo(st.bits.x, st.highest, os)
  }

  ghost predicate OpenUpTo(fds: set<int>, highest: int, os: set<int>) {
    forall fd :: fd in fds && fd <= highest ==> fd in os
  }

  /** A lap from `s`, with sets left over from before it. Without an active device, or
      with nothing ready, or when select fails, no handler is called. */
  ghost predicate LapOk(s: Sys, before: Bits, p: Lap) {
    && MaskPass(p.masks, |s.slots|) && Feasible(s, p.masks) && Feasible(Run(s, p.masks), p.handled)
    && var st := PassStatus(s, p.masks, before);
    && p.selects == SelectsOf(st, p.ready) && Keeps(st, p.kept)
    && (p.ready > 0 ==>
          && st.active > 0 && AllOpen(st, Run(s, p.masks).os)
          && p.ready == |p.kept.r| + |p.kept.w| + |p.kept.x|
          && Dispatches(Run(s, p.masks), 0, 0, p.ready, p.kept, p.handled))
    && (p.ready <= 0 ==> p.handled == [])
  }

  /** The sets handed from lap to lap, cleared at the start. */
  function Carried(ps: seq<Lap>): Bits {
    if ps == [] then NO_BITS else ps[|ps| - 1].kept
  }

  /** The laps of one call of the selector loop: it goes on as long as something is ready. */
  ghost predicate LoopOk(s: Sys, ps: seq<Lap>)
    decreases |ps|, 0
  {
    ps == [] ||
    (var front := ps[..|ps| - 1];
     && LoopOk(s, front)
     && (front != [] ==> front[|front| - 1].ready > 0)
     && LapOk(LoopEnd(s, front), Carried(front), ps[|ps| - 1]))
  }

  ghost function LoopEnd(s: Sys, ps: seq<Lap>): Sys
    requires LoopOk(s, ps)
    decreases |ps|, 1
  {
    if ps == [] then s
    else
      var last := ps[|ps| - 1];
      Run(Run(LoopEnd(s, ps[..|ps| - 1]), last.masks), last.handled)
  }

  function LoopEvents(ps: seq<Lap>): seq<Event> {
    if ps == [] then []
    else LoopEvents(ps[..|ps| - 1]) + (ps[|ps| - 1].masks + ps[|ps| - 1].handled)
  }

  /** The calls of select in these laps. */
  function LoopSelects(ps: seq<Lap>): seq<SelectCall> {
    if ps == [] then [] else LoopSelects(ps[..|ps| - 1]) + ps[|ps| - 1].selects
  }

  /** Where a lap leads, if it can happen. */
  ghost function LapEnd(s: Sys, before: Bits, p: Lap): Option<Sys> {
    if LapOk(s, before, p) then Some(Run(Run(s, p.masks), p.handled)) else None
  }

  /** Select was asked in `t` about these sets and gave this answer, and the handlers were
      called for what it kept of them. */
  ghost predicate Answered(t: Sys, nfds: int, asked: Bits, kept: Bits, ready: int, handled: seq<Event>, u: Sys) {
    && kept.r <= asked.r && kept.w <= asked.w && kept.x <= asked.x
    && (forall fd :: fd in kept.r || fd in kept.w || fd in kept.x ==> fd < nfds)
    && (ready > 0 ==>
          && (forall fd :: fd in asked.r + asked.w + asked.x && fd < nfds ==> fd in t.os)
          && ready == |kept.r| + |kept.w| + |kept.x|
          && Dispatches(t, 0, 0, ready, kept, handled))
    && (ready <= 0 ==> handled == [])
    && Feasible(t, handled) && u == Run(t, handled) && SameApp(t, u)
  }

  /** Without an active device select is not called. */
  lemma LapIdle(s: Sys, t: Sys, before: Bits, st: Status, p: Lap)
    requires Passing(s, p.masks, t, before, st) && |p.masks| == |s.slots| && st.active == 0
    requires p == Lap(p.masks, [], NO_BITS, 0, [])
    ensures LapEnd(s, before, p) == Some(t) && SameApp(s, t)
  {
  }

  /** With one it is, and what it answers decides on the handlers. */
  lemma LapAnswered(s: Sys, t: Sys, before: Bits, st: Status, p: Lap, u: Sys)
    requires Passing(s, p.masks, t, before, st) && |p.masks| == |s.slots| && st.active > 0
    requires p.selects == [SelectCall(st.highest + 1, st.bits, p.ready)]
    requires Answered(t, st.highest + 1, st.bits, p.kept, p.ready, p.handled, u)
    ensures LapEnd(s, before, p) == Some(u) && SameApp(s, u)
  {
    if p.ready > 0 {
      assert AllOpen(st, t.os);
    }
  }

  /** The loop under way: in `t`, after the laps `ps`, with these sets, the last answer
      having been `ready`. */
  ghost predicate Looping(s: Sys, ps: seq<Lap>, t: Sys, sets: Bits, ready: int) {
    && LoopOk(s, ps) && t == LoopEnd(s, ps) && SameApp(s, t)
    && (if ps == [] then ready > 0 else ps[|ps| - 1].ready == ready)
    && (ready > 0 ==> Carried(ps) == sets)
  }

  /** The loop over and done with: it ends when select had nothing to report, or was not
      called. */
  ghost predicate Looped(s: Sys, ps: seq<Lap>, t: Sys) {
    && LoopOk(s, ps) && ps != [] && ps[|ps| - 1].ready <= 0
    && t == LoopEnd(s, ps) && SameApp(s, t)
  }

  lemma LoopStops(s: Sys, ps: seq<Lap>, t: Sys, sets: Bits, ready: int)
    requires Looping(s, ps, t, sets, ready) && ready <= 0
    ensures Looped(s, ps, t)
  {
  }

  lemma LoopGoesOn(s: Sys, ps: seq<Lap>, t: Sys, sets: Bits, ready: int, p: Lap, u: Sys, left: Bits)
    requires Looping(s, ps, t, sets, ready) && ready > 0 && LapEnd(t, sets, p) == Some(u) && SameApp(t, u)
    requires p.ready > 0 ==> p.kept == left
    ensures Looping(s, ps + [p], u, left, p.ready)
    ensures LoopSelects(ps + [p]) == LoopSelects(ps) + p.selects
  {
    LoopSnoc(s, ps, p);
  }

  /** Select was asked in each of the laps, and had something to report. */
  ghost predicate Answers(asked: seq<SelectCall>, ps: seq<Lap>) {
    && |asked| == |ps|
    && forall i :: 0 <= i < |ps| ==> asked[i].ready == ps[i].ready > 0
  }

  lemma AnswersSnoc(asked: seq<SelectCall>, ps: seq<Lap>, more: seq<SelectCall>)
    requires ps != [] && Answers(asked, ps[..|ps| - 1])
    requires |more| == 1 && more[0].ready == ps[|ps| - 1].ready > 0
    ensures Answers(asked + more, ps)
  {
  }

  lemma {:induction false} AnsweredLaps(s: Sys, ps: seq<Lap>)
    requires LoopOk(s, ps) && (ps != [] ==> ps[|ps| - 1].ready > 0)
    ensures Answers(LoopSelects(ps), ps)
  {
    if ps != [] {
      var front, last := ps[..|ps| - 1], ps[|ps| - 1];
      LastLap(s, ps);
      AnsweredLaps(s, front);
      AnsweredLap(LoopEnd(s, front), Carried(front), last);
      AnswersSnoc(LoopSelects(front), ps, last.selects);
    }
  }

  lemma LastLap(s: Sys, ps: seq<Lap>)
    requires LoopOk(s, ps) && ps != []
    ensures var front, last := ps[..|ps| - 1], ps[|ps| - 1];
      && LoopOk(s, front) && LapOk(LoopEnd(s, front), Carried(front), last)
      && (front != [] ==> front[|front| - 1].ready > 0)
  {
  }

  lemma AnsweredLap(s: Sys, before: Bits, p: Lap)
    requires LapOk(s, before, p) && p.ready > 0
    ensures |p.selects| == 1 && p.selects[0].ready == p.ready
  {
  }

  lemma LoopSnoc(s: Sys, ps: seq<Lap>, p: Lap)
    requires LoopOk(s, ps) && LapOk(LoopEnd(s, ps), Carried(ps), p)
    requires ps != [] ==> ps[|ps| - 1].ready > 0
    ensures LoopOk(s, ps + [p]) && Carried(ps + [p]) == p.kept
    ensures LoopEnd(s, ps + [p]) == Run(Run(LoopEnd(s, ps), p.masks), p.handled)
  {
    var all := ps + [p];
    assert all[..|all| - 1] == ps && all[|all| - 1] == p;
  }

  /** The laps are a run of events. */
  lemma {:induction false} LoopRuns(s: Sys, ps: seq<Lap>)
    requires LoopOk(s, ps)
    ensures Feasible(s, LoopEvents(ps)) && Run(s, LoopEvents(ps)) == LoopEnd(s, ps)
  {
    if ps != [] {
      var front, last := ps[..|ps| - 1], ps[|ps| - 1];
      LoopRuns(s, front);
      RunConcat(LoopEnd(s, front), last.masks, last.handled);
      RunConcat(s, LoopEvents(front), last.masks + last.handled);
    }
  }

  /** The laps and a cycle behind them as well. */
  lemma RoundRuns(s: Sys, ps: seq<Lap>, t: Sys, e: Event)
    requires Looped(s, ps, t) && Enabled(t, e)
    ensures Feasible(s, LoopEvents(ps) + [e]) && Run(s, LoopEvents(ps) + [e]) == Exec(t, e)
  {
    LoopRuns(s, ps);
    RunSnoc(s, LoopEvents(ps), e);
  }

  // ---- Room to read ----

  /** The serial device was reopened by the masks of this lap, on a descriptor left over
      in the read set, nothing fits into its receive buffer, and select will not fail. */
  ghost predicate StaleAndFull(s: Sys, t: Sys, before: Bits, st: Status) {
    && |s.slots| > 0 && |t.slots| > 0 && st.active > 0 && AllOpen(st, t.os)
    && s.slots[0].dev.fd == NO_FD && t.slots[0].dev.fd != NO_FD
    && t.slots[0].dev.fd in before.r && t.slots[0].dev.fd <= st.highest
    && s.slots[0].dev.rbuf.Available() == 0
  }

  /** Two slots of one state do not share a descriptor. */
  lemma SameFdSameSlot(s: Sys, j: nat, k: nat, bufsize: nat)
    requires Layout(s, bufsize) && j < |s.slots| && k < |s.slots|
    requires s.slots[j].dev.fd == s.slots[k].dev.fd != NO_FD
    ensures j == k
  {
    assert DevsOf(s)[j] == s.slots[j].dev && DevsOf(s)[k] == s.slots[k].dev;
  }

  /** A descriptor a device had when the lap began is set for reading if it wants that. */
  lemma HeldIsExact(s: Sys, masks: seq<Event>, before: Bits, j: nat, bufsize: nat)
    requires Layout(s, bufsize) && MaskPass(masks, |s.slots|) && Feasible(s, masks)
    requires j < |s.slots| && s.slots[j].dev.fd != NO_FD
    ensures s.slots[j].dev.fd in PassStatus(s, masks, before).bits.r <==> WantsRead(s.slots[j].dev)
  {
    var fd, n := s.slots[j].dev.fd, |s.slots|;
    PassIsExact(s, masks, n, before, bufsize);
    WantedMembers(s.slots, n, HasFd, fd);
    WantedMembers(s.slots, n, WantsRead, fd);
    if fd in PassStatus(s, masks, before).bits.r {
      var k :| 0 <= k < n && s.slots[k].dev.fd == fd && WantsRead(s.slots[k].dev);
      SameFdSameSlot(s, j, k, bufsize);
    }
  }

  /** One that a device got on the way is set only if it was left over. */
  lemma NewIsLeftOver(s: Sys, masks: seq<Event>, before: Bits, j: nat, bufsize: nat)
    requires Layout(s, bufsize) && MaskPass(masks, |s.slots|) && Feasible(s, masks)
    requires j < |s.slots| == |Run(s, masks).slots|
    requires s.slots[j].dev.fd == NO_FD && Run(s, masks).slots[j].dev.fd != NO_FD
    ensures var fd := Run(s, masks).slots[j].dev.fd;
      fd in PassStatus(s, masks, before).bits.r <==> fd in before.r
  {
    var t, n := Run(s, masks), |s.slots|;
    var fd := t.slots[j].dev.fd;
    PassIsExact(s, masks, n, before, bufsize);
    WantedMembers(s.slots, n, HasFd, fd);
    WantedMembers(s.slots, n, WantsRead, fd);
    forall k | 0 <= k < n
      ensures s.slots[k].dev.fd != fd
    {
      if s.slots[k].dev.fd == fd {
        SameFdSameSlot(t, j, k, bufsize);
      }
    }
  }

  /** After the masks, only devices with room are among those to read, with one exception. */
  lemma LapLeavesRoom(s: Sys, masks: seq<Event>, before: Bits, kept: Bits, bufsize: nat)
    requires Layout(s, bufsize) && MaskPass(masks, |s.slots|) && Feasible(s, masks)
    requires Keeps(PassStatus(s, masks, before), kept) && PassStatus(s, masks, before).active > 0
    requires AllOpen(PassStatus(s, masks, before), Run(s, masks).os)
    requires !StaleAndFull(s, Run(s, masks), before, PassStatus(s, masks, before))
    ensures RoomFrom(Run(s, masks), 0, kept.r)
  {
    var t := Run(s, masks);
    PassIsExact(s, masks, |s.slots|, before, bufsize);
    forall j | 0 <= j < |t.slots| && IsSet(t.slots[j].dev, kept.r) && !t.slots[j].dev.listener
      ensures t.slots[j].dev.rbuf.Available() > 0
    {
      assert DevsOf(s)[j] == s.slots[j].dev;
      if s.slots[j].dev.fd != NO_FD {
        HeldIsExact(s, masks, before, j, bufsize);
      } else {
        NewIsLeftOver(s, masks, before, j, bufsize);
      }
    }
  }

  /** The stale descriptor may be found ready and read, into a buffer that is full. */
  lemma StaleIsRead(s: Sys, masks: seq<Event>, before: Bits, bufsize: nat) returns (p: Lap)
    requires Layout(s, bufsize) && MaskPass(masks, |s.slots|) && Feasible(s, masks)
    requires StaleAndFull(s, Run(s, masks), before, PassStatus(s, masks, before))
    ensures p.masks == masks && LapOk(s, before, p) && !ReadsWithRoom(Run(s, masks), p.handled)
  {
    var t := Run(s, masks);
    var selects := SelectsOf(PassStatus(s, masks, before), 1);
    p := Lap(masks, selects, Bits({t.slots[0].dev.fd}, {}, {}), 1, [Read(0, Eof)]);
    PassIsExact(s, masks, |s.slots|, before, bufsize);
    NewIsLeftOver(s, masks, before, 0, bufsize);
    EndOfFileDispatched(t, bufsize);
    RunOne(t, Read(0, Eof));
  }

  lemma EndOfFileDispatched(t: Sys, bufsize: nat)
    requires Layout(t, bufsize) && t.slots[0].dev.fd != NO_FD
    ensures Enabled(t, Read(0, Eof))
    ensures Dispatches(t, 0, 0, 1, Bits({t.slots[0].dev.fd}, {}, {}), [Read(0, Eof)])
  {
    var e, kept := Read(0, Eof), Bits({t.slots[0].dev.fd}, {}, {});
    assert DevsOf(t)[0] == t.slots[0].dev;
    assert [e][1..] == [];
    var u := Exec(t, e);
    assert Dispatches(u, 0, 2, 0, kept, []);
    assert Dispatches(u, 0, 1, 0, kept, []);
  }

  /** In a lap from any sets, every read finds room and stores every byte it got, whatever
      select answers, exactly unless the serial device was reopened full on a descriptor left
      over in the read set and every descriptor select looks at is open. */
  lemma LapReadsWithRoomIff(s: Sys, masks: seq<Event>, before: Bits, bufsize: nat)
    requires Layout(s, bufsize) && MaskPass(masks, |s.slots|) && Feasible(s, masks)
    ensures
      (forall p: Lap :: p.masks == masks && LapOk(s, before, p) ==> ReadsWithRoom(Run(s, masks), p.handled))
      <==> !StaleAndFull(s, Run(s, masks), before, PassStatus(s, masks, before))
  {
    if StaleAndFull(s, Run(s, masks), before, PassStatus(s, masks, before)) {
      var p := StaleIsRead(s, masks, before, bufsize);
    } else {
      forall p: Lap | p.masks == masks && LapOk(s, before, p)
        ensures ReadsWithRoom(Run(s, masks), p.handled)
      {
        if p.ready > 0 {
          LapLeavesRoom(s, masks, before, p.kept, bufsize);
          PassIsExact(s, masks, |s.slots|, before, bufsize);
          DispatchReadsWithRoom(Run(s, masks), 0, 0, p.ready, p.kept, p.handled, bufsize);
        }
      }
    }
  }

  // ---- Whether select can answer ----

  /** Of the left-over descriptors that select looks at, none is closed any more. */
  ghost predicate Reused(before: Bits, highest: int, os: set<int>) {
    OpenUpTo(before.r, highest, os) && OpenUpTo(before.w, highest, os) && OpenUpTo(before.x, highest, os)
  }

  /** A descriptor a device had when the lap began is still open after the masks. */
  lemma HeldSlotStays(s: Sys, masks: seq<Event>, k: nat, bufsize: nat)
    requires Layout(s, bufsize) && MaskPass(masks, |s.slots|) && Feasible(s, masks)
    requires k < |s.slots| && (s.slots[k].dev.fd != NO_FD || s.slots[k].dev.state.Rank() >= Pending.Rank())
    ensures s.slots[k].dev.fd in Run(s, masks).os
  {
    var t := Run(s, masks);
    PassKeeps(s, masks, bufsize);
    assert DevsOf(s)[k] == s.slots[k].dev && DevsOf(t)[k] == t.slots[k].dev;
  }

  lemma HeldStaysOpen(s: Sys, masks: seq<Event>, wants: Dev -> bool, fd: int, bufsize: nat)
    requires Layout(s, bufsize) && MaskPass(masks, |s.slots|) && Feasible(s, masks)
    requires forall d: Dev :: wants(d) ==> d.fd != NO_FD || d.state.Rank() >= Pending.Rank()
    requires fd in Wanted(s.slots, |s.slots|, wants)
    ensures fd in Run(s, masks).os
  {
    WantedMembers(s.slots, |s.slots|, wants, fd);
    var k :| 0 <= k < |s.slots| && s.slots[k].dev.fd == fd && wants(s.slots[k].dev);
    HeldSlotStays(s, masks, k, bufsize);
  }

  lemma RefilledIsOpen(s: Sys, masks: seq<Event>, before: set<int>, wants: Dev -> bool, highest: int, bufsize: nat)
    requires Layout(s, bufsize) && MaskPass(masks, |s.slots|) && Feasible(s, masks)
    requires forall d: Dev :: wants(d) ==> d.state.Rank() >= Pending.Rank()
    ensures OpenUpTo(Refilled(s.slots, |s.slots|, before, wants), highest, Run(s, masks).os)
      <==> OpenUpTo(before, highest, Run(s, masks).os)
  {
    var n, os := |s.slots|, Run(s, masks).os;
    forall fd | fd in Wanted(s.slots, n, HasFd)
      ensures fd in os
    {
      HeldStaysOpen(s, masks, HasFd, fd, bufsize);
    }
    forall fd | fd in Wanted(s.slots, n, wants)
      ensures fd in os
    {
      HeldStaysOpen(s, masks, wants, fd, bufsize);
    }
    assert forall fd :: fd in before ==> fd in Refilled(s.slots, n, before, wants) || fd in Wanted(s.slots, n, HasFd);
  }

  /** What select looks at is open exactly when the closed left-over descriptors were reused. */
  lemma AllOpenIff(s: Sys, masks: seq<Event>, before: Bits, bufsize: nat)
    requires Layout(s, bufsize) && MaskPass(masks, |s.slots|) && Feasible(s, masks)
    ensures var st := PassStatus(s, masks, before);
      AllOpen(st, Run(s, masks).os) <==> Reused(before, st.highest, Run(s, masks).os)
  {
    var st := PassStatus(s, masks, before);
    PassBits(s, masks, before, bufsize);
    RefilledIsOpen(s, masks, before.r, WantsRead, st.highest, bufsize);
    RefilledIsOpen(s, masks, before.w, WantsWrite, st.highest, bufsize);
    RefilledIsOpen(s, masks, before.x, WantsExcept, st.highest, bufsize);
  }

  // ---- What a dispatch calls ----

  /** The read handler of slot `k`, or accept for a listener, is called just when its
      descriptor is in the set. */
  ghost predicate ReadPart(s: Sys, k: nat, fds: set<int>, rs: seq<Event>, t: Sys) {
    && k < |s.slots| && |rs| <= 1
    && (rs != [] <==> s.slots[k].dev.fd != NO_FD && s.slots[k].dev.fd in fds)
    && (rs != [] ==> (if s.slots[k].dev.listener then rs[0].Accept? else rs[0].Read?) && rs[0].i == k)
    && Feasible(s, rs) && t == Run(s, rs) && k < |t.slots|
  }

  ghost predicate WritePart(s: Sys, k: nat, fds: set<int>, ws: seq<Event>, t: Sys) {
    && k < |s.slots| && |ws| <= 1
    && (ws != [] <==> s.slots[k].dev.fd != NO_FD && s.slots[k].dev.fd in fds)
    && (ws != [] ==> ws[0].Write? && ws[0].i == k)
    && Feasible(s, ws) && t == Run(s, ws) && k < |t.slots|
  }

  ghost predicate ExceptPart(s: Sys, k: nat, fds: set<int>, xs: seq<Event>, t: Sys) {
    && k < |s.slots|
    && xs == (if s.slots[k].dev.fd != NO_FD && s.slots[k].dev.fd in fds then [Except(k)] else [])
    && Feasible(s, xs) && t == Run(s, xs)
  }

  /** The handlers called for a slot, each for the descriptor the slot has by then: from
      `s`, by way of `t` and `u`, to `v`. */
  ghost predicate SlotCalls(s: Sys, k: nat, b: Bits, rs: seq<Event>, t: Sys, ws: seq<Event>, u: Sys,
                            xs: seq<Event>, v: Sys) {
    ReadPart(s, k, b.r, rs, t) && WritePart(t, k, b.w, ws, u) && ExceptPart(u, k, b.x, xs, v)
  }

  lemma PhaseCalls(s: Sys, k: nat, phase: nat, ready: int, b: Bits, es: seq<Event>, bufsize: nat)
    returns (hs: seq<Event>, rest: seq<Event>)
    requires Layout(s, bufsize) && phase < 3 && k < |s.slots| && (phase == 0 ==> ready > 0)
    requires Dispatches(s, k, phase, ready, b, es)
    ensures es == hs + rest && |hs| <= 1 && (hs != [] <==> IsSet(s.slots[k].dev, BitsFor(b, phase)))
    ensures hs != [] ==> HandlerEvent(s, k, phase, hs[0])
    ensures Feasible(s, hs) && Layout(Run(s, hs), bufsize) && k < |Run(s, hs).slots|
    ensures Dispatches(Run(s, hs), NextSlot(k, phase), NextPhase(phase), ready - |hs|, b, rest)
  {
    if IsSet(s.slots[k].dev, BitsFor(b, phase)) {
      hs, rest := [es[0]], es[1..];
      RunOne(s, es[0]);
      ExecShape(s, es[0], bufsize);
      assert k < |Exec(s, es[0]).slots|;
    } else {
      hs, rest := [], es;
    }
  }

  lemma ReadPhase(s: Sys, k: nat, ready: int, b: Bits, es: seq<Event>, bufsize: nat)
    returns (rs: seq<Event>, t: Sys, left: int, rest: seq<Event>)
    requires Layout(s, bufsize) && k < |s.slots| && ready > 0 && Dispatches(s, k, 0, ready, b, es)
    ensures es == rs + rest && ReadPart(s, k, b.r, rs, t) && Layout(t, bufsize)
    ensures left == ready - |rs| && Dispatches(t, k, 1, left, b, rest)
  {
    rs, rest := PhaseCalls(s, k, 0, ready, b, es, bufsize);
    t, left := Run(s, rs), ready - |rs|;
  }

  lemma WritePhase(s: Sys, k: nat, ready: int, b: Bits, es: seq<Event>, bufsize: nat)
    returns (ws: seq<Event>, t: Sys, left: int, rest: seq<Event>)
    requires Layout(s, bufsize) && k < |s.slots| && Dispatches(s, k, 1, ready, b, es)
    ensures es == ws + rest && WritePart(s, k, b.w, ws, t) && Layout(t, bufsize)
    ensures left == ready - |ws| && Dispatches(t, k, 2, left, b, rest)
  {
    ws, rest := PhaseCalls(s, k, 1, ready, b, es, bufsize);
    t, left := Run(s, ws), ready - |ws|;
  }

  lemma ExceptPhase(s: Sys, k: nat, ready: int, b: Bits, es: seq<Event>, bufsize: nat)
    returns (xs: seq<Event>, t: Sys, left: int, rest: seq<Event>)
    requires Layout(s, bufsize) && k < |s.slots| && Dispatches(s, k, 2, ready, b, es)
    ensures es == xs + rest && ExceptPart(s, k, b.x, xs, t) && Layout(t, bufsize)
    ensures left == ready - |xs| && Dispatches(t, k + 1, 0, left, b, rest)
  {
    xs, rest := PhaseCalls(s, k, 2, ready, b, es, bufsize);
    t, left := Run(s, xs), ready - |xs|;
  }

  lemma Flatten(a: seq<Event>, b: seq<Event>, c: seq<Event>, d: seq<Event>)
    ensures a + (b + (c + d)) == a + b + c + d
  {
  }

  /** A dispatch that reaches a slot with something still ready calls exactly its handlers
      whose bits are set, and goes on behind it. */
  lemma SlotDispatched(s: Sys, k: nat, ready: int, b: Bits, es: seq<Event>, bufsize: nat)
    returns (rs: seq<Event>, t: Sys, ws: seq<Event>, u: Sys, xs: seq<Event>, v: Sys, left: int, rest: seq<Event>)
    requires Layout(s, bufsize) && k < |s.slots| && ready > 0 && Dispatches(s, k, 0, ready, b, es)
    ensures es == rs + ws + xs + rest && SlotCalls(s, k, b, rs, t, ws, u, xs, v) && Layout(v, bufsize)
    ensures left == ready - |rs| - |ws| - |xs| && Dispatches(v, k + 1, 0, left, b, rest)
  {
    var m, n, more, last;
    rs, t, m, more := ReadPhase(s, k, ready, b, es, bufsize);
    ws, u, n, last := WritePhase(t, k, m, b, more, bufsize);
    xs, v, left, rest := ExceptPhase(u, k, n, b, last, bufsize);
    Flatten(rs, ws, xs, rest);
  }

  lemma PhaseContinues(s: Sys, k: nat, phase: nat, ready: int, b: Bits, hs: seq<Event>)
    requires phase < 3 && k < |s.slots| && (phase == 0 ==> ready > 0)
    requires |hs| <= 1 && (hs != [] <==> IsSet(s.slots[k].dev, BitsFor(b, phase)))
    requires Feasible(s, hs) && (hs != [] ==> HandlerEvent(s, k, phase, hs[0]))
    ensures Continues(s, k, phase, ready, b, hs, Run(s, hs), NextSlot(k, phase), NextPhase(phase), ready - |hs|)
  {
    if hs == [] {
      ContinuesSkip(s, k, phase, ready, b);
    } else {
      assert hs[..0] == [] && hs == [hs[0]];
      ContinuesCall(s, k, phase, ready, b, hs[0]);
    }
  }

  lemma ReadContinues(s: Sys, k: nat, ready: int, b: Bits, rs: seq<Event>, t: Sys, left: int)
    requires ReadPart(s, k, b.r, rs, t) && ready > 0 && left == ready - |rs|
    ensures Continues(s, k, 0, ready, b, rs, t, k, 1, left)
  {
    PhaseContinues(s, k, 0, ready, b, rs);
  }

  lemma WriteContinues(s: Sys, k: nat, ready: int, b: Bits, ws: seq<Event>, t: Sys, left: int)
    requires WritePart(s, k, b.w, ws, t) && left == ready - |ws|
    ensures Continues(s, k, 1, ready, b, ws, t, k, 2, left)
  {
    PhaseContinues(s, k, 1, ready, b, ws);
  }

  lemma ExceptContinues(s: Sys, k: nat, ready: int, b: Bits, xs: seq<Event>, t: Sys, left: int)
    requires ExceptPart(s, k, b.x, xs, t) && left == ready - |xs|
    ensures Continues(s, k, 2, ready, b, xs, t, k + 1, 0, left)
  {
    PhaseContinues(s, k, 2, ready, b, xs);
  }

  /** And whatever does so is a dispatch. */
  lemma SlotDispatches(s: Sys, k: nat, ready: int, b: Bits, rs: seq<Event>, t: Sys, ws: seq<Event>, u: Sys,
                       xs: seq<Event>, v: Sys, left: int, rest: seq<Event>)
    requires SlotCalls(s, k, b, rs, t, ws, u, xs, v) && ready > 0
    requires left == ready - |rs| - |ws| - |xs| && Dispatches(v, k + 1, 0, left, b, rest)
    ensures Dispatches(s, k, 0, ready, b, rs + ws + xs + rest)
  {
    var m, n := ready - |rs|, ready - |rs| - |ws|;
    ReadContinues(s, k, ready, b, rs, t, m);
    WriteContinues(t, k, m, b, ws, u, n);
    ExceptContinues(u, k, n, b, xs, v, left);
    ContinuesThrough(s, k, 0, ready, b, rs, t, k, 1, m, ws, u, k, 2, n);
    ContinuesThrough(s, k, 0, ready, b, rs + ws, u, k, 2, n, xs, v, k + 1, 0, left);
  }

  lemma SlotRuns(s: Sys, k: nat, b: Bits, rs: seq<Event>, t: Sys, ws: seq<Event>, u: Sys, xs: seq<Event>, v: Sys)
    requires SlotCalls(s, k, b, rs, t, ws, u, xs, v)
    ensures Feasible(s, rs + ws + xs) && Run(s, rs + ws + xs) == v
  {
    RunConcat(s, rs, ws);
    RunConcat(s, rs + ws, xs);
  }

  lemma Regroup(a: seq<Event>, b: seq<Event>, c: seq<Event>)
    ensures a + (b + c) == a + b + c
  {
  }

  lemma OneSlot(s: Sys, k: nat, ready: int, b: Bits, es: seq<Event>, bufsize: nat)
    returns (hs: seq<Event>, v: Sys, left: int, rest: seq<Event>)
    requires Layout(s, bufsize) && k < |s.slots| && ready > 0 && Dispatches(s, k, 0, ready, b, es)
    ensures es == hs + rest && Feasible(s, hs) && v == Run(s, hs) && Layout(v, bufsize)
    ensures left == ready - |hs| && Dispatches(v, k + 1, 0, left, b, rest)
  {
    var rs, t, ws, u, xs;
    rs, t, ws, u, xs, v, left, rest := SlotDispatched(s, k, ready, b, es, bufsize);
    SlotRuns(s, k, b, rs, t, ws, u, xs, v);
    hs := rs + ws + xs;
  }

  /** Every slot is reached, with what is still ready then. */
  lemma {:induction false} SlotReached(s: Sys, j: nat, k: nat, ready: int, b: Bits, es: seq<Event>, bufsize: nat)
    returns (hs: seq<Event>, u: Sys, left: int, rest: seq<Event>)
    requires Layout(s, bufsize) && j <= k && Dispatches(s, j, 0, ready, b, es)
    ensures es == hs + rest && Feasible(s, hs) && u == Run(s, hs) && Layout(u, bufsize)
    ensures left == ready - |hs| && Dispatches(u, k, 0, left, b, rest)
    decreases k - j
  {
    if j == k || ready <= 0 || j >= |s.slots| {
      hs, u, left, rest := [], s, ready, es;
    } else {
      var fs, v, m, more := OneSlot(s, j, ready, b, es, bufsize);
      var gs;
      gs, u, left, rest := SlotReached(v, j + 1, k, m, b, more, bufsize);
      RunConcat(s, fs, gs);
      Regroup(fs, gs, rest);
      hs := fs + gs;
    }
  }

  /** Slots without a bit are passed by. */
  lemma {:induction false} SlotsPassedBy(t: Sys, j: nat, k: nat, b: Bits, es: seq<Event>)
    requires j <= k <= |t.slots|
    requires forall l :: j <= l < k ==> var fd := t.slots[l].dev.fd; fd !in b.r && fd !in b.w && fd !in b.x
    ensures Dispatches(t, j, 0, 1, b, es) <==> Dispatches(t, k, 0, 1, b, es)
    decreases k - j
  {
    if j < k {
      SlotsPassedBy(t, j + 1, k, b, es);
      assert Dispatches(t, j, 2, 1, b, es) <==> Dispatches(t, j + 1, 0, 1, b, es);
      assert Dispatches(t, j, 1, 1, b, es) <==> Dispatches(t, j, 2, 1, b, es);
    }
  }

  lemma OthersHaveNoBit(t: Sys, k: nat, b: Bits, bufsize: nat)
    requires Layout(t, bufsize) && k < |t.slots| && t.slots[k].dev.fd != NO_FD
    requires b.r + b.w + b.x == {t.slots[k].dev.fd}
    ensures forall l :: 0 <= l < k ==> var fd := t.slots[l].dev.fd; fd !in b.r && fd !in b.w && fd !in b.x
  {
    forall l | 0 <= l < k
      ensures t.slots[l].dev.fd !in b.r + b.w + b.x
    {
      if t.slots[l].dev.fd == t.slots[k].dev.fd {
        SameFdSameSlot(t, l, k, bufsize);
      }
    }
  }

  /** With one bit set, for reading, the dispatch is one call of that device's read handler,
      which accepts if it is a listener. */
  lemma OneRead(t: Sys, k: nat, es: seq<Event>, bufsize: nat)
    requires Layout(t, bufsize) && k < |t.slots| && t.slots[k].dev.fd != NO_FD
    ensures Dispatches(t, 0, 0, 1, Bits({t.slots[k].dev.fd}, {}, {}), es) <==>
      && |es| == 1 && Enabled(t, es[0])
      && (if t.slots[k].dev.listener then es[0].Accept? else es[0].Read?) && es[0].i == k
  {
    var b := Bits({t.slots[k].dev.fd}, {}, {});
    OthersHaveNoBit(t, k, b, bufsize);
    SlotsPassedBy(t, 0, k, b, es);
    if es != [] && HandlerEvent(t, k, 0, es[0]) && Enabled(t, es[0]) {
      NothingMore(Exec(t, es[0]), k, 1, b, es[1..]);
    }
  }

  /** With one bit set, for writing, one call of its write handler. */
  lemma OneWrite(t: Sys, k: nat, es: seq<Event>, bufsize: nat)
    requires Layout(t, bufsize) && k < |t.slots| && t.slots[k].dev.fd != NO_FD
    ensures Dispatches(t, 0, 0, 1, Bits({}, {t.slots[k].dev.fd}, {}), es) <==>
      |es| == 1 && es[0].Write? && es[0].i == k && Enabled(t, es[0])
  {
    var b := Bits({}, {t.slots[k].dev.fd}, {});
    OthersHaveNoBit(t, k, b, bufsize);
    SlotsPassedBy(t, 0, k, b, es);
    assert Dispatches(t, k, 0, 1, b, es) <==> Dispatches(t, k, 1, 1, b, es);
    if es != [] && HandlerEvent(t, k, 1, es[0]) && Enabled(t, es[0]) {
      NothingMore(Exec(t, es[0]), k, 2, b, es[1..]);
    }
  }

  /** With one bit set, for an exception, one call of its exception handler. */
  lemma OneExcept(t: Sys, k: nat, es: seq<Event>, bufsize: nat)
    requires Layout(t, bufsize) && k < |t.slots| && t.slots[k].dev.fd != NO_FD
    ensures Dispatches(t, 0, 0, 1, Bits({}, {}, {t.slots[k].dev.fd}), es) <==> es == [Except(k)]
  {
    var b := Bits({}, {}, {t.slots[k].dev.fd});
    OthersHaveNoBit(t, k, b, bufsize);
    SlotsPassedBy(t, 0, k, b, es);
    assert Dispatches(t, k, 1, 1, b, es) <==> Dispatches(t, k, 2, 1, b, es);
    assert Dispatches(t, k, 0, 1, b, es) <==> Dispatches(t, k, 1, 1, b, es);
    if es != [] && es[0] == Except(k) {
      assert Dispatches(Exec(t, es[0]), k + 1, 0, 0, b, es[1..]) <==> es[1..] == [];
    }
  }

  /** Behind the last ready descriptor nothing is called. */
  lemma NothingMore(t: Sys, k: nat, phase: nat, b: Bits, es: seq<Event>)
    requires 1 <= phase < 3 && b.x == {} && (phase == 1 ==> b.w == {})
    ensures Dispatches(t, k, phase, 0, b, es) <==> es == []
  {
    if k < |t.slots| {
      assert Dispatches(t, k + 1, 0, 0, b, es) <==> es == [];
      assert Dispatches(t, k, 2, 0, b, es) <==> Dispatches(t, k + 1, 0, 0, b, es);
    }
  }

  /** A lap can find something ready exactly when a device is active and every closed
      descriptor left over up to the highest was reused; else the loop is left, with an
      error or at once. */
  lemma LapAnswersIff(s: Sys, masks: seq<Event>, before: Bits, bufsize: nat)
    requires Layout(s, bufsize) && MaskPass(masks, |s.slots|) && Feasible(s, masks)
    ensures var st := PassStatus(s, masks, before);
      (exists p: Lap :: p.masks == masks && LapOk(s, before, p) && p.ready > 0)
      <==> st.active > 0 && Reused(before, st.highest, Run(s, masks).os)
  {
    var st := PassStatus(s, masks, before);
    AllOpenIff(s, masks, before, bufsize);
    if st.active > 0 && Reused(before, st.highest, Run(s, masks).os) {
      var p := SomeAnswer(s, masks, before, bufsize);
    }
  }

  lemma SomeAnswer(s: Sys, masks: seq<Event>, before: Bits, bufsize: nat) returns (p: Lap)
    requires Layout(s, bufsize) && MaskPass(masks, |s.slots|) && Feasible(s, masks)
    requires PassStatus(s, masks, before).active > 0 && AllOpen(PassStatus(s, masks, before), Run(s, masks).os)
    ensures p.masks == masks && LapOk(s, before, p) && p.ready > 0
  {
    PassCounts(s, masks, before, bufsize);
    var k :| 0 <= k < |s.slots| && s.slots[k].dev.state.IsOpen();
    p := AnswerFor(s, masks, before, k, bufsize);
  }

  lemma AnswerFor(s: Sys, masks: seq<Event>, before: Bits, k: nat, bufsize: nat) returns (p: Lap)
    requires Layout(s, bufsize) && MaskPass(masks, |s.slots|) && Feasible(s, masks)
    requires PassStatus(s, masks, before).active > 0 && AllOpen(PassStatus(s, masks, before), Run(s, masks).os)
    requires k < |s.slots| && s.slots[k].dev.state.IsOpen()
    ensures p.masks == masks && LapOk(s, before, p) && p.ready > 0
  {
    var t := Run(s, masks);
    OpenIsWatched(s, masks, before, k, bufsize);
    OneExcept(t, k, [Except(k)], bufsize);
    RunOne(t, Except(k));
    var selects := SelectsOf(PassStatus(s, masks, before), 1);
    p := Lap(masks, selects, Bits({}, {}, {t.slots[k].dev.fd}), 1, [Except(k)]);
  }

  lemma OpenIsWatched(s: Sys, masks: seq<Event>, before: Bits, k: nat, bufsize: nat)
    requires Layout(s, bufsize) && MaskPass(masks, |s.slots|) && Feasible(s, masks)
    requires k < |s.slots| && s.slots[k].dev.state.IsOpen()
    ensures var t, st := Run(s, masks), PassStatus(s, masks, before);
      && Layout(t, bufsize) && |t.slots| == |s.slots| && t.slots[k].dev.fd != NO_FD
      && t.slots[k].dev.fd in st.bits.x && t.slots[k].dev.fd <= st.highest
  {
    PassKeeps(s, masks, bufsize);
    assert DevsOf(s)[k] == s.slots[k].dev;
    ExceptIsSet(s, masks, before, k, bufsize);
  }

  lemma ExceptIsSet(s: Sys, masks: seq<Event>, before: Bits, k: nat, bufsize: nat)
    requires Layout(s, bufsize) && MaskPass(masks, |s.slots|) && Feasible(s, masks)
    requires k < |s.slots| && s.slots[k].dev.state.IsOpen()
    ensures var st := PassStatus(s, masks, before);
      s.slots[k].dev.fd in st.bits.x && s.slots[k].dev.fd <= st.highest
  {
    PassBits(s, masks, before, bufsize);
    PassCounts(s, masks, before, bufsize);
    WantedMembers(s.slots, |s.slots|, WantsExcept, s.slots[k].dev.fd);
  }

  // ---- Handlers called for another device's descriptor ----

  /** Each handler is called for a descriptor its slot had when the dispatch began, in `t`:
      the one that select reported. */
  ghost predicate AllReported(t: Sys, s: Sys, es: seq<Event>)
    decreases |es|
  {
    es == [] ||
    (&& Enabled(s, es[0]) && !es[0].Cycle? && es[0].i < |t.slots|
     && s.slots[es[0].i].dev.fd == t.slots[es[0].i].dev.fd
     && AllReported(t, Exec(s, es[0]), es[1..]))
  }

  /** Slots filled so far, and after one more handler. */
  function Filled(filled: set<nat>, s: Sys, e: Event): set<nat> {
    if e.Accept? && e.fd != NO_FD then filled + {FreeSlot(s.slots, 1)} else filled
  }

  /** No handler is called for a slot that a connection accepted before, in the same
      dispatch, was put into. */
  ghost predicate NoneInherits(filled: set<nat>, s: Sys, es: seq<Event>)
    decreases |es|
  {
    es == [] ||
    (&& Enabled(s, es[0]) && !es[0].Cycle? && es[0].i !in filled
     && NoneInherits(Filled(filled, s, es[0]), Exec(s, es[0]), es[1..]))
  }

  /** A slot not reached yet was filled, having been free, or is as it was. */
  ghost predicate SlotAhead(t: Sys, s: Sys, filled: set<nat>, k: nat)
    requires k < |s.slots|
  {
    if k in filled then s.slots[k].dev.fd != NO_FD && (k < |t.slots| ==> t.slots[k].dev.fd == NO_FD)
    else k < |t.slots| && s.slots[k] == t.slots[k]
  }

  /** The slot being dispatched may have been closed since. */
  ghost predicate SlotHere(t: Sys, s: Sys, filled: set<nat>, k: nat)
    requires k < |s.slots|
  {
    if k in filled then k < |t.slots| ==> t.slots[k].dev.fd == NO_FD
    else k < |t.slots| && (s.slots[k].dev.fd == t.slots[k].dev.fd || s.slots[k].dev.fd == NO_FD)
  }

  ghost predicate Ahead(t: Sys, s: Sys, filled: set<nat>, k: nat, phase: nat) {
    && |t.slots| <= |s.slots|
    && (k < |s.slots| ==> if phase == 0 then SlotAhead(t, s, filled, k) else SlotHere(t, s, filled, k))
    && (forall l :: k < l < |s.slots| ==> SlotAhead(t, s, filled, l))
  }

  lemma AcceptKeepsAhead(t: Sys, s: Sys, filled: set<nat>, k: nat, fd: int, bufsize: nat)
    requires Layout(s, bufsize) && k < |s.slots| && Ahead(t, s, filled, k, 0) && Enabled(s, Accept(k, fd))
    requires s.slots[k].dev.fd != NO_FD
    ensures Ahead(t, Exec(s, Accept(k, fd)), Filled(filled, s, Accept(k, fd)), k, 1)
  {
    if fd != NO_FD {
      var u, at := Exec(s, Accept(k, fd)), FreeSlot(s.slots, 1);
      assert at < |s.slots| ==> DevsOf(s)[at].fd == NO_FD;
      assert DevsOf(s)[k].fd != NO_FD && at != k;
      assert u.slots[at].dev.fd == fd;
      assert forall l :: 0 <= l < |s.slots| && l != at ==> u.slots[l] == s.slots[l];
      assert SlotHere(t, u, filled + {at}, k);
      forall l | k < l < |u.slots|
        ensures SlotAhead(t, u, filled + {at}, l)
      {
        assert l < |s.slots| ==> SlotAhead(t, s, filled, l);
      }
    } else {
      var u := Exec(s, Accept(k, fd));
      assert u.slots == s.slots && SlotHere(t, u, filled, k);
      forall l | k < l < |u.slots|
        ensures SlotAhead(t, u, filled, l)
      {
        assert SlotAhead(t, s, filled, l);
      }
    }
  }

  /** The other handlers leave every other slot alone. */
  lemma HandlerOnlyHere(s: Sys, k: nat, e: Event, bufsize: nat)
    requires Layout(s, bufsize) && k < |s.slots| && Enabled(s, e)
    requires (e.Read? || e.Write? || e.Except?) && e.i == k
    ensures var u := Exec(s, e);
      && |u.slots| == |s.slots| && (forall l :: 0 <= l < |s.slots| && l != k ==> u.slots[l] == s.slots[l])
      && (u.slots[k].dev.fd == s.slots[k].dev.fd || u.slots[k].dev.fd == NO_FD)
  {
  }

  lemma HandlerKeepsAhead(t: Sys, s: Sys, filled: set<nat>, k: nat, phase: nat, e: Event, bufsize: nat)
    requires Layout(s, bufsize) && k < |s.slots| && Ahead(t, s, filled, k, phase) && Enabled(s, e)
    requires phase < 3 && HandlerEvent(s, k, phase, e) && s.slots[k].dev.fd != NO_FD
    ensures Ahead(t, Exec(s, e), Filled(filled, s, e), NextSlot(k, phase), NextPhase(phase))
    ensures k < |t.slots| && s.slots[k].dev.fd == t.slots[k].dev.fd <==> k !in filled
  {
    if e.Accept? {
      AcceptKeepsAhead(t, s, filled, k, e.fd, bufsize);
    } else {
      HandlerOnlyHere(s, k, e, bufsize);
      var u := Exec(s, e);
      assert SlotHere(t, u, filled, k);
      forall l | k < l < |u.slots|
        ensures SlotAhead(t, u, filled, l)
      {
        assert SlotAhead(t, s, filled, l);
      }
    }
  }

  lemma {:induction false} ReportedFrom(t: Sys, s: Sys, filled: set<nat>, k: nat, phase: nat, ready: int, b: Bits,
                                        es: seq<Event>, bufsize: nat)
    requires Layout(s, bufsize) && phase < 3 && Dispatches(s, k, phase, ready, b, es)
    requires Ahead(t, s, filled, k, phase)
    ensures AllReported(t, s, es) <==> NoneInherits(filled, s, es)
    decreases |es|, |s.slots| - k, 3 - phase
  {
    if k < |s.slots| && (phase > 0 || ready > 0) {
      var l, next := NextSlot(k, phase), NextPhase(phase);
      if IsSet(s.slots[k].dev, BitsFor(b, phase)) {
        HandlerKeepsAhead(t, s, filled, k, phase, es[0], bufsize);
        ExecShape(s, es[0], bufsize);
        ReportedFrom(t, Exec(s, es[0]), Filled(filled, s, es[0]), l, next, ready - 1, b, es[1..], bufsize);
      } else {
        ReportedFrom(t, s, filled, l, next, ready, b, es, bufsize);
      }
    }
  }

  /** A dispatch calls only handlers for descriptors that select reported of that device,
      exactly when it calls none for a connection it accepted itself. */
  lemma HandlersAreReportedIff(t: Sys, ready: int, b: Bits, es: seq<Event>, bufsize: nat)
    requires Layout(t, bufsize) && Dispatches(t, 0, 0, ready, b, es)
    ensures AllReported(t, t, es) <==> NoneInherits({}, t, es)
  {
    ReportedFrom(t, t, {}, 0, 0, ready, b, es, bufsize);
  }

  // ---- The first lap ----

  /** In the first lap of a loop a full receive buffer is never read from, so it cannot
      look like end of file. */
  lemma FirstLapReadsWithRoom(s: Sys, ps: seq<Lap>, bufsize: nat)
    requires Layout(s, bufsize) && LoopOk(s, ps) && ps != []
    ensures LapOk(s, NO_BITS, ps[0]) && ReadsWithRoom(Run(s, ps[0].masks), ps[0].handled)
  {
    FirstLap(s, ps);
    LapReadsWithRoomIff(s, ps[0].masks, NO_BITS, bufsize);
  }

  lemma {:induction false} FirstLap(s: Sys, ps: seq<Lap>)
    requires LoopOk(s, ps) && ps != []
    ensures LapOk(s, NO_BITS, ps[0])
  {
    if |ps| > 1 {
      FirstLap(s, ps[..|ps| - 1]);
    }
  }

  // ---- Putting dispatches together ----

  /** Whatever finishes a dispatch from here finishes, behind `es`, one from there. */
  ghost predicate Continues(s: Sys, k: nat, phase: nat, ready: int, b: Bits, es: seq<Event>,
                            t: Sys, l: nat, next: nat, left: int)
    requires phase < 3 && next < 3
  {
    forall rest :: Dispatches(t, l, next, left, b, rest) ==> Dispatches(s, k, phase, ready, b, es + rest)
  }

  lemma ContinuesStart(s: Sys, k: nat, phase: nat, ready: int, b: Bits)
    requires phase < 3
    ensures Continues(s, k, phase, ready, b, [], s, k, phase, ready)
  {
    forall rest | Dispatches(s, k, phase, ready, b, rest)
      ensures Dispatches(s, k, phase, ready, b, [] + rest)
    {
      assert [] + rest == rest;
    }
  }

  /** A handler whose descriptor is set is called. */
  lemma ContinuesCall(s: Sys, k: nat, phase: nat, ready: int, b: Bits, e: Event)
    requires phase < 3 && k < |s.slots| && (phase == 0 ==> ready > 0)
    requires IsSet(s.slots[k].dev, BitsFor(b, phase))
    requires HandlerEvent(s, k, phase, e) && Enabled(s, e)
    ensures Continues(s, k, phase, ready, b, [e], Exec(s, e), NextSlot(k, phase), NextPhase(phase), ready - 1)
  {
    forall rest | Dispatches(Exec(s, e), NextSlot(k, phase), NextPhase(phase), ready - 1, b, rest)
      ensures Dispatches(s, k, phase, ready, b, [e] + rest)
    {
      assert ([e] + rest)[1..] == rest;
    }
  }

  /** One whose descriptor is not set is not. */
  lemma ContinuesSkip(s: Sys, k: nat, phase: nat, ready: int, b: Bits)
    requires phase < 3 && k < |s.slots| && (phase == 0 ==> ready > 0)
    requires !IsSet(s.slots[k].dev, BitsFor(b, phase))
    ensures Continues(s, k, phase, ready, b, [], s, NextSlot(k, phase), NextPhase(phase), ready)
  {
    forall rest | Dispatches(s, NextSlot(k, phase), NextPhase(phase), ready, b, rest)
      ensures Dispatches(s, k, phase, ready, b, [] + rest)
    {
      assert [] + rest == rest;
    }
  }

  lemma ContinuesThrough(s: Sys, k: nat, phase: nat, ready: int, b: Bits, es: seq<Event>,
                         t: Sys, l: nat, mid: nat, left: int, fs: seq<Event>,
                         u: Sys, m: nat, next: nat, rest: int)
    requires phase < 3 && mid < 3 && next < 3
    requires Continues(s, k, phase, ready, b, es, t, l, mid, left)
    requires Continues(t, l, mid, left, b, fs, u, m, next, rest)
    ensures Continues(s, k, phase, ready, b, es + fs, u, m, next, rest)
  {
    forall more | Dispatches(u, m, next, rest, b, more)
      ensures Dispatches(s, k, phase, ready, b, es + fs + more)
    {
      assert Dispatches(t, l, mid, left, b, fs + more);
      assert es + fs + more == es + (fs + more);
    }
  }

  /** A dispatch has come from one place to another: it is in `t`, after the events `es`. */
  ghost predicate Dispatching(s: Sys, k: nat, phase: nat, ready: int, b: Bits, es: seq<Event>,
                              t: Sys, l: nat, next: nat, left: int)
    requires phase < 3 && next < 3
  {
    && Feasible(s, es) && t == Run(s, es) && SameApp(s, t)
    && Continues(s, k, phase, ready, b, es, t, l, next, left)
  }

  lemma DispatchStarts(s: Sys, ready: int, b: Bits)
    ensures Dispatching(s, 0, 0, ready, b, [], s, 0, 0, ready)
  {
    ContinuesStart(s, 0, 0, ready, b);
  }

  lemma DispatchCalls(s: Sys, k: nat, phase: nat, ready: int, b: Bits, e: Event)
    requires phase < 3 && k < |s.slots| && (phase == 0 ==> ready > 0)
    requires IsSet(s.slots[k].dev, BitsFor(b, phase))
    requires HandlerEvent(s, k, phase, e) && Enabled(s, e) && SameApp(s, Exec(s, e))
    ensures Dispatching(s, k, phase, ready, b, [e], Exec(s, e), NextSlot(k, phase), NextPhase(phase), ready - 1)
  {
    ContinuesCall(s, k, phase, ready, b, e);
    RunOne(s, e);
  }

  lemma DispatchSkips(s: Sys, k: nat, phase: nat, ready: int, b: Bits)
    requires phase < 3 && k < |s.slots| && (phase == 0 ==> ready > 0)
    requires !IsSet(s.slots[k].dev, BitsFor(b, phase))
    ensures Dispatching(s, k, phase, ready, b, [], s, NextSlot(k, phase), NextPhase(phase), ready)
  {
    ContinuesSkip(s, k, phase, ready, b);
  }

  lemma DispatchGoesOn(s: Sys, k: nat, phase: nat, ready: int, b: Bits, es: seq<Event>,
                       t: Sys, l: nat, mid: nat, left: int, more: seq<Event>,
                       u: Sys, m: nat, next: nat, rest: int)
    requires phase < 3 && mid < 3 && next < 3
    requires Dispatching(s, k, phase, ready, b, es, t, l, mid, left)
    requires Dispatching(t, l, mid, left, b, more, u, m, next, rest)
    ensures Dispatching(s, k, phase, ready, b, es + more, u, m, next, rest)
  {
    ContinuesThrough(s, k, phase, ready, b, es, t, l, mid, left, more, u, m, next, rest);
    RunConcat(s, es, more);
  }

  /** It ends when no descriptor or no slot is left. */
  lemma DispatchEnds(s: Sys, ready: int, b: Bits, es: seq<Event>, t: Sys, k: nat, left: int)
    requires Dispatching(s, 0, 0, ready, b, es, t, k, 0, left) && (left <= 0 || k >= |t.slots|)
    ensures Dispatches(s, 0, 0, ready, b, es)
  {
    assert Dispatches(t, k, 0, left, b, []);
    assert es + [] == es;
  }
}
