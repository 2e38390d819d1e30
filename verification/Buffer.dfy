/** The ring buffer of buffer.c and the bounded FIFO it implements. */
module Buffers {
  import opened Bytes

  // ---- The bounded FIFO ----

  /** What a ring buffer means: its allocated size and the bytes queued in it. */
  datatype Ring = Ring(size: nat, contents: seq<byte>) {
    /** One slot always stays unused; a ring of size 0 stores nothing. */
    function Capacity(): nat {
      if size == 0 then 0 else size - 1
    }

    predicate Valid() {
      |contents| <= Capacity()
    }

    function Available(): nat {
      if |contents| <= Capacity() then Capacity() - |contents| else 0
    }

    /** The prefix of `bytes` that still fits is queued behind what is there. */
    function Put(bytes: seq<byte>): (r: Ring)
      ensures Valid() ==> r.Valid()
    {
      Ring(size, contents + Fit(bytes, Available()))
    }

    /** The oldest bytes are removed, as many as are there. */
    function Drop(len: nat): (r: Ring)
      ensures Valid() ==> r.Valid()
    {
      Ring(size, contents[Min(len, |contents|)..])
    }

    function Flushed(): (r: Ring)
      ensures r.Valid()
    {
      Ring(size, [])
    }
  }

  /** As much of `bytes` as fits in `room`. */
  function Fit(bytes: seq<byte>, room: nat): seq<byte> {
    bytes[..Min(|bytes|, room)]
  }

  /** One call on a ring buffer. */
  datatype RingOp = PutOp(bytes: seq<byte>) | GetOp(len: nat) | PeekOp(len: nat) | FlushOp

  /** A ring with the bytes it took in and gave out since it was last flushed. */
  datatype RingRun = RingRun(ring: Ring, taken: seq<byte>, given: seq<byte>)

  function RunRing(size: nat, ops: seq<RingOp>): (r: RingRun)
    ensures r.ring.Valid()
  {
    if ops == [] then RingRun(Ring(size, []), [], [])
    else
      var r := RunRing(size, ops[..|ops| - 1]);
      match ops[|ops| - 1]
      case PutOp(bytes) => r.(ring := r.ring.Put(bytes), taken := r.taken + Fit(bytes, r.ring.Available()))
      case GetOp(len) => r.(ring := r.ring.Drop(len), given := r.given + Fit(r.ring.contents, len))
      case PeekOp(_) => r
      case FlushOp => RingRun(r.ring.Flushed(), [], [])
  }

  /** Any run of calls on a ring of any size is a bounded FIFO. */
  lemma {:induction false} RingIsFifo(size: nat, ops: seq<RingOp>)
    ensures var r := RunRing(size, ops);
      && r.ring.size == size
      && |r.ring.contents| <= (if size == 0 then 0 else size - 1)
      && r.taken == r.given + r.ring.contents
  {
    if ops != [] {
      RingIsFifo(size, ops[..|ops| - 1]);
      var r := RunRing(size, ops[..|ops| - 1]);
      match ops[|ops| - 1]
      case GetOp(len) =>
        assert r.ring.contents == Fit(r.ring.contents, len) + r.ring.Drop(len).contents;
      case _ =>
    }
  }

  // ---- The bytes of a ring, on plain sequences ----

  /** The bytes queued from `lo` up to `hi`: one segment, or two past a wrap. */
  ghost function View(d: seq<byte>, lo: nat, hi: nat): seq<byte>
    requires lo <= |d| && hi <= |d|
  {
    if lo <= hi then d[lo..hi] else d[lo..] + d[..hi]
  }

  /** Advance an index, wrapping to the start of the ring. */
  function Inc(size: nat, val: nat, step: nat): nat {
    if val + step >= size then 0 else val + step
  }

  ghost predicate Index(size: nat, i: nat) {
    if size == 0 then i == 0 else i < size
  }

  /** Bytes that lie contiguously from `lo`, before the wrap or `hi`. */
  function Segment(size: nat, lo: nat, hi: nat): nat
    requires lo <= size
  {
    if lo > hi then size - lo else hi - lo
  }

  /** Room that lies contiguously from `hi`, before the wrap or `lo`. */
  function Gap(size: nat, lo: nat, hi: nat): nat
    requires hi <= size
  {
    if lo > hi then lo - hi else size - hi
  }

  lemma ViewSkip(d: seq<byte>, lo: nat, hi: nat, len: nat)
    requires Index(|d|, lo) && Index(|d|, hi) && len <= Segment(|d|, lo, hi)
    ensures len <= |View(d, lo, hi)|
    ensures d[lo..lo + len] == View(d, lo, hi)[..len]
    ensures View(d, Inc(|d|, lo, len), hi) == View(d, lo, hi)[len..]
  {
  }

  lemma ViewPut(d: seq<byte>, e: seq<byte>, lo: nat, hi: nat, seg: seq<byte>)
    requires Index(|d|, lo) && Index(|d|, hi) && |e| == |d|
    requires 0 < |seg| <= Gap(|d|, lo, hi) && |View(d, lo, hi)| + |seg| < |d|
    requires e == d[..hi] + seg + d[hi + |seg|..]
    ensures View(e, lo, Inc(|d|, hi, |seg|)) == View(d, lo, hi) + seg
  {
    if lo <= hi {
      assert e[lo..hi] == d[lo..hi];
      assert e[lo..hi + |seg|] == e[lo..hi] + e[hi..hi + |seg|];
    } else {
      assert e[..hi + |seg|] == d[..hi] + seg;
      assert e[lo..] == d[lo..];
    }
  }

  // ---- The ring itself ----

  class Buffer {
    var size: nat
    var lo: nat
    var hi: nat
    const data: array<byte>
    ghost var Contents: seq<byte>

    ghost predicate Valid()
      reads this, data
      ensures Valid() ==> Model().Valid()
    {
      && data.Length == size && Index(size, lo) && Index(size, hi)
      && Contents == View(data[..], lo, hi)
    }

    ghost function Model(): Ring
      reads this
    {
      Ring(size, Contents)
    }

    constructor (size: nat)
      ensures Valid() && Model() == Ring(size, []) && fresh(data)
    {
      this.size := size;
      lo, hi := 0, 0;
      data := new byte[size];
      Contents := [];
    }

    method Flush()
      requires Valid()
      modifies this`lo, this`hi, this`Contents
      ensures Valid() && Model() == old(Model()).Flushed()
      ensures size == old(size) && Contents == []
    {
      lo, hi := 0, 0;
      Contents := [];
    }

    function Used(): (n: nat)
      requires Valid()
      reads this, data
      ensures n == |Contents|
    {
      if hi >= lo then hi - lo else size - lo + hi
    }

    function Available(): (n: nat)
      requires Valid()
      reads this, data
      ensures n == Model().Available() == if size == 0 then 0 else size - 1 - |Contents|
    {
      if size != 0 then size - Used() - 1 else 0
    }

    /** Copy one contiguous segment in at `hi` and advance. */
    method PutSegment(seg: seq<byte>)
      requires Valid()
      requires 0 < |seg| <= Available() && |seg| <= Gap(size, lo, hi)
      modifies this`hi, this`Contents, data
      ensures Valid()
      ensures Contents == old(Contents) + seg
      ensures hi == Inc(size, old(hi), |seg|)
    {
      ghost var d := data[..];
      forall i | 0 <= i < |seg| {
        data[hi + i] := seg[i];
      }
      assert data[..] == d[..hi] + seg + d[hi + |seg|..];
      ViewPut(d, data[..], lo, hi, seg);
      hi := Inc(size, hi, |seg|);
      Contents := Contents + seg;
    }

    /** Queue as many of the bytes as fit; returns how many did. */
    method Put(buf: seq<byte>) returns (len: nat)
      requires Valid()
      modifies this`hi, this`Contents, data
      ensures Valid()
      ensures len == Min(|buf|, old(Available()))
      ensures Contents == old(Contents) + buf[..len]
    {
      var avail := Available();
      len := |buf|;
      if len >= avail {
        len := avail;
      } else {
        avail := len;
      }
      var top := size - hi;
      if lo > hi {
        top := top - (size - lo);
      }
      if top > avail {
        top := avail;
      }
      var rest := buf[..len];
      if top > 0 {
        PutSegment(rest[..top]);
        avail := avail - top;
        rest := rest[top..];
      }
      if avail > 0 {
        PutSegment(rest);
      }
    }

    /** Copy out the oldest bytes without removing them. */
    method Peek(want: nat) returns (buf: seq<byte>, len: nat)
      requires Valid()
      ensures len == Min(want, |Contents|)
      ensures buf == Contents[..len]
    {
      var avail := Used();
      len := want;
      if len > avail {
        len := avail;
      } else {
        avail := len;
      }
      var at := lo;
      buf := [];
      if at > hi {
        var top := size - at;
        if top > avail {
          top := avail;
        }
        ViewSkip(data[..], at, hi, top);
        buf := data[..][at..at + top];
        avail := avail - top;
        at := Inc(size, at, top);
      }
      assert View(data[..], at, hi) == Contents[len - avail..];
      if avail > 0 {
        ViewSkip(data[..], at, hi, avail);
        buf := buf + data[..][at..at + avail];
        Pieces(Contents, len - avail, len);
      }
    }

    /** Copy one contiguous segment out from `lo`, if there is a destination, and advance. */
    method GetSegment(len: nat, dest: bool) returns (buf: seq<byte>)
      requires Valid()
      requires len <= Segment(size, lo, hi)
      modifies this`lo, this`Contents
      ensures Valid() && len <= |old(Contents)|
      ensures dest ==> buf == old(Contents)[..len]
      ensures !dest ==> buf == []
      ensures Contents == old(Contents)[len..]
      ensures lo == Inc(size, old(lo), len)
    {
      ViewSkip(data[..], lo, hi, len);
      buf := [];
      if dest {
        buf := data[..][lo..lo + len];
        assert buf == Contents[..len];
      }
      ghost var rest := Contents[len..];
      lo := Inc(size, lo, len);
      Contents := rest;
    }

    /** Remove the oldest bytes; `dest` is false when the caller passes no destination. */
    method Get(want: nat, dest: bool) returns (buf: seq<byte>, len: nat)
      requires Valid()
      modifies this`lo, this`Contents
      ensures Valid()
      ensures len == Min(want, |old(Contents)|)
      ensures dest ==> buf == old(Contents)[..len]
      ensures !dest ==> buf == []
      ensures Contents == old(Contents)[len..]
    {
      var avail := Used();
      len := want;
      if len > avail {
        len := avail;
      } else {
        avail := len;
      }
      ghost var before := Contents;
      buf := [];
      if lo > hi {
        var top := size - lo;
        if top > avail {
          top := avail;
        }
        buf := GetSegment(top, dest);
        avail := avail - top;
      }
      if avail > 0 {
        var rest := GetSegment(avail, dest);
        buf := buf + rest;
      }
      assert Contents == before[len..];
    }

    /** Put one contiguous segment of `src` into `dst`; returns the index after it. */
    static method CopySegment(dst: Buffer, src: Buffer, at: nat, len: nat) returns (next: nat)
      requires dst != src && dst.data != src.data
      requires dst.Valid() && src.Valid() && Index(src.size, at)
      requires len <= dst.Available() && len <= Segment(src.size, at, src.hi)
      modifies dst`hi, dst`Contents, dst.data
      ensures dst.Valid() && Index(src.size, next)
      ensures next == Inc(src.size, at, len)
      ensures len <= |View(src.data[..], at, src.hi)|
      ensures dst.Contents == old(dst.Contents) + View(src.data[..], at, src.hi)[..len]
      ensures View(src.data[..], next, src.hi) == View(src.data[..], at, src.hi)[len..]
    {
      ghost var d := src.data[..];
      ViewSkip(d, at, src.hi, len);
      if len > 0 {
        var put := dst.Put(src.data[..][at..at + len]);
        assert put == len;  // never short
      }
      assert src.data[..] == d;
      next := Inc(src.size, at, len);
    }

    /** Put the oldest `len` bytes of `src` into `dst`; returns the index after them. */
    static method CopySegments(dst: Buffer, src: Buffer, len: nat) returns (at: nat)
      requires dst != src && dst.data != src.data
      requires dst.Valid() && src.Valid()
      requires len <= dst.Available() && len <= src.Used()
      modifies dst`hi, dst`Contents, dst.data
      ensures dst.Valid() && Index(src.size, at)
      ensures dst.Contents == old(dst.Contents) + src.Contents[..len]
      ensures View(src.data[..], at, src.hi) == src.Contents[len..]
    {
      ghost var d, s := src.data[..], src.Contents;
      var rest := len;
      at := src.lo;
      if at > src.hi {
        var top := src.size - at;
        if top > rest {
          top := rest;
        }
        at := CopySegment(dst, src, at, top);
        rest := rest - top;
      }
      assert src.data[..] == d;
      if rest > 0 {
        Pieces(s, len - rest, len);
        at := CopySegment(dst, src, at, rest);
        assert src.data[..] == d;
      }
    }

    /** Transfer bytes between two rings. */
    static method CopyMove(dst: Buffer, src: Buffer, want: nat, move: bool) returns (len: nat)
      requires dst != src && dst.data != src.data
      requires dst.Valid() && src.Valid()
      modifies dst`hi, dst`Contents, dst.data, src`lo, src`hi, src`Contents
      ensures dst.Valid() && src.Valid()
      ensures len == Min(want, Min(old(dst.Available()), |old(src.Contents)|))
      ensures dst.Contents == old(dst.Contents) + old(src.Contents)[..len]
      ensures src.Contents == if move then old(src.Contents)[len..] else old(src.Contents)
    {
      len := want;
      var dAvail := dst.Available();
      if len > dAvail {
        len := dAvail;
      } else {
        dAvail := len;
      }
      var sAvail := src.Used();
      if len > sAvail {
        len := sAvail;
      } else {
        sAvail := len;
      }
      if sAvail > dAvail {
        sAvail := dAvail;
      }
      var hi := src.hi;
      var lo := CopySegments(dst, src, sAvail);
      if move {
        src.lo := lo;
        src.hi := hi;
        src.Contents := src.Contents[len..];
      }
    }

    static method Copy(dst: Buffer, src: Buffer, size: nat) returns (len: nat)
      requires dst != src && dst.data != src.data
      requires dst.Valid() && src.Valid()
      modifies dst`hi, dst`Contents, dst.data, src`lo, src`hi, src`Contents
      ensures dst.Valid() && src.Valid()
      ensures len == Min(size, Min(old(dst.Available()), |old(src.Contents)|))
      ensures dst.Contents == old(dst.Contents) + old(src.Contents)[..len]
      ensures src.Contents == old(src.Contents)
    {
      len := CopyMove(dst, src, size, false);
    }

    static method Move(dst: Buffer, src: Buffer, size: nat) returns (len: nat)
      requires dst != src && dst.data != src.data
      requires dst.Valid() && src.Valid()
      modifies dst`hi, dst`Contents, dst.data, src`lo, src`hi, src`Contents
      ensures dst.Valid() && src.Valid()
      ensures len == Min(size, Min(old(dst.Available()), |old(src.Contents)|))
      ensures dst.Contents == old(dst.Contents) + old(src.Contents)[..len]
      ensures src.Contents == old(src.Contents)[len..]
    {
      len := CopyMove(dst, src, size, true);
    }
  }
}
