/** The growable byte store of stringstore.c: storage, iteration, splitting, consumption. */
module StringStores {
  import opened Bytes
  import opened Tokens

  /** Capacity, and growth increment, of a store created with the default size. */
  const STORE_SIZE: nat := 2048
  /** Position that stands for the end of the store, whatever its length. */
  const SS_END: nat := 0xFFFF_FFFF_FFFF_FFFF
  /** The delimiters of a command line. */
  const NEWLINE: Option<seq<byte>> := Some([LF])

  // ---- What the operations mean ----

  function Inserted(c: seq<byte>, value: seq<byte>, at: nat): seq<byte> {
    if at == SS_END || at >= |c| then c + value else c[..at] + value + c[at..]
  }

  /** The bytes are at their position, and those from there on have moved up behind them. */
  lemma InsertedInPlace(c: seq<byte>, value: seq<byte>, at: nat)
    ensures var r, p := Inserted(c, value, at), if at < |c| && at != SS_END then at else |c|;
      && |r| == |c| + |value|
      && r[..p] == c[..p] && r[p..p + |value|] == value && r[p + |value|..] == c[p..]
  {
  }

  function Consumed(c: seq<byte>, bytes: nat): seq<byte> {
    if bytes >= |c| then [] else c[bytes..]
  }

  /** Capacity after adding blocks of `inc` until `need` bytes fit, at least one. */
  function Grown(capacity: nat, inc: nat, need: nat): nat
    requires inc > 0
    decreases need - capacity
  {
    if need <= capacity + inc then capacity + inc else Grown(capacity + inc, inc, need)
  }

  /** The number of blocks added is the least positive one that fits. */
  lemma {:induction false} GrownByLeastBlocks(capacity: nat, inc: nat, need: nat) returns (blocks: nat)
    requires inc > 0
    ensures blocks >= 1 && Grown(capacity, inc, need) == capacity + blocks * inc
    ensures need <= capacity + blocks * inc
    ensures forall fewer: nat :: 1 <= fewer < blocks ==> capacity + fewer * inc < need
    decreases need - capacity
  {
    if need <= capacity + inc {
      blocks := 1;
    } else {
      var b := GrownByLeastBlocks(capacity + inc, inc, need);
      blocks := b + 1;
      forall fewer: nat | 1 <= fewer < blocks
        ensures capacity + fewer * inc < need
      {
        if fewer > 1 {
          assert capacity + inc + (fewer - 1) * inc < need;
        }
      }
    }
  }

  /** One call on a store used as a queue. */
  datatype StoreOp = AppendOp(bytes: seq<byte>) | ConsumeOp(len: nat)

  /** Contents, everything appended and everything consumed. */
  datatype StoreRun = StoreRun(contents: seq<byte>, appended: seq<byte>, consumed: seq<byte>)

  function RunStore(ops: seq<StoreOp>): StoreRun {
    if ops == [] then StoreRun([], [], [])
    else
      var r := RunStore(ops[..|ops| - 1]);
      match ops[|ops| - 1]
      case AppendOp(bytes) =>
        StoreRun(Inserted(r.contents, bytes, SS_END), r.appended + bytes, r.consumed)
      case ConsumeOp(n) =>
        StoreRun(Consumed(r.contents, n), r.appended, r.consumed + r.contents[..Min(n, |r.contents|)])
  }

  /** In any chunking, appending and consuming is first in, first out. */
  lemma {:induction false} StoreIsFifo(ops: seq<StoreOp>)
    ensures var r := RunStore(ops); r.appended == r.consumed + r.contents
  {
    if ops != [] {
      StoreIsFifo(ops[..|ops| - 1]);
      var r := RunStore(ops[..|ops| - 1]);
      match ops[|ops| - 1]
      case AppendOp(_) =>
      case ConsumeOp(n) =>
        assert r.contents == r.contents[..Min(n, |r.contents|)] + Consumed(r.contents, n);
    }
  }

  // ---- The store ----

  class StringStore {
    var size: nat
    var used: nat
    const inc: nat
    var buff: array<byte>
    ghost var Contents: seq<byte>

    ghost predicate Valid()
      reads this, buff
    {
      && buff.Length == size && used <= size && inc > 0
      && Contents == buff[..used]
    }

    constructor (size: nat)
      requires size > 0
      ensures Valid() && Contents == [] && this.size == inc == size && fresh(buff)
    {
      used := 0;
      inc, this.size := size, size;
      buff := new byte[size];
      Contents := [];
    }

    /** Reallocate, but never below what is stored. */
    method Resize(want: nat) returns (length: nat)
      requires Valid()
      modifies this`buff, this`size
      ensures Valid() && (buff == old(buff) || fresh(buff))
      ensures length == size == if want < used then used else want
    {
      length := want;
      if length < used {
        length := used;
      }
      if length != size {
        var buffer := buff;
        buff := new byte[length];
        forall i | 0 <= i < used {
          buff[i] := buffer[i];
        }
        size := length;
        assert buff[..used] == old(buff[..used]);
      }
    }

    /** Make room for `length` more bytes. */
    method Reserve(length: nat)
      requires Valid()
      modifies this`buff, this`size
      ensures Valid() && (buff == old(buff) || fresh(buff))
      ensures size == if length + used > old(size) then Grown(old(size), inc, used + length) else old(size)
      ensures length + used <= size
    {
      if length + used > size {
        var increment := inc;
        while used + length > size + increment
          invariant increment >= inc
          invariant Grown(size + increment - inc, inc, used + length) == Grown(size, inc, used + length)
        {
          increment := increment + inc;
        }
        var _ := Resize(size + increment);
      }
    }

    /** Move the bytes from a position on up. */
    method ShiftUp(at: nat, length: nat)
      requires Valid() && at <= used && used + length <= size
      modifies buff
      ensures buff[..at] == old(buff[..at])
      ensures buff[at + length..used + length] == old(buff[at..used])
    {
      forall i | at + length <= i < used + length {
        buff[i] := buff[i - length];
      }
    }

    method CopyIn(value: seq<byte>, at: nat)
      requires buff.Length == size && at + |value| <= size
      modifies buff
      ensures buff[..at] == old(buff[..at])
      ensures buff[at..at + |value|] == value
      ensures buff[at + |value|..] == old(buff[at + |value|..])
    {
      forall i | 0 <= i < |value| {
        buff[at + i] := value[i];
      }
    }

    /** Open a gap at a position and copy the bytes into it. */
    method MoveIn(value: seq<byte>, at: nat)
      requires Valid() && at <= used && used + |value| <= size
      modifies buff
      ensures buff[..used + |value|] == old(buff[..at]) + value + old(buff[at..used])
    {
      ghost var above := used - at;
      ShiftUp(at, |value|);
      ghost var rest := buff[at + |value|..];
      assert rest[..above] == buff[at + |value|..used + |value|];
      CopyIn(value, at);
      assert buff[at + |value|..used + |value|] == buff[at + |value|..][..above];
      assert buff[..used + |value|] == buff[..at] + buff[at..at + |value|] + buff[at + |value|..used + |value|];
    }

    /** Place bytes for which there is room. */
    method Place(value: seq<byte>, at: nat)
      requires Valid() && used + |value| <= size
      modifies this`used, this`Contents, buff
      ensures Valid()
      ensures Contents == Inserted(old(Contents), value, at)
    {
      ghost var c := buff[..used];
      if at == SS_END || at >= used {
        forall i | 0 <= i < |value| {
          buff[used + i] := value[i];
        }
        assert buff[..used + |value|] == c + value;
      } else {
        MoveIn(value, at);
      }
      used := used + |value|;
      Contents := buff[..used];
    }

    /** Insert `length` bytes at a position, or append them; NULL stores nothing,
        though room is made for it. */
    method Store(value: Option<seq<byte>>, length: nat, at: nat) returns (stored: nat)
      requires Valid()
      requires value.Some? ==> |value.value| == length
      modifies this`buff, this`size, this`used, this`Contents, buff
      ensures Valid() && (buff == old(buff) || fresh(buff))
      ensures stored == if value.None? then 0 else length
      ensures Contents == if value.None? then old(Contents) else Inserted(old(Contents), value.value, at)
      ensures size == if length + old(used) > old(size) then Grown(old(size), inc, old(used) + length) else old(size)
    {
      Reserve(length);
      if length == 0 || value.None? {
        stored := 0;
        assert value.Some? ==> Contents == Inserted(Contents, value.value, at);
      } else {
        stored := length;
        Place(value.value, at);
      }
    }

    method Append(value: seq<byte>) returns (stored: nat)
      requires Valid()
      modifies this`buff, this`size, this`used, this`Contents, buff
      ensures Valid() && (buff == old(buff) || fresh(buff))
      ensures stored == |value|
      ensures Contents == old(Contents) + value
    {
      stored := Store(Some(value), |value|, SS_END);
    }

    /** Turn every terminator into NUL, in place, and count them. */
    method Split(delim: Option<seq<byte>>) returns (count: nat)
      requires Valid()
      modifies this`Contents, buff
      ensures Valid()
      ensures Contents == SplitBytes(old(Contents), delim)
      ensures count == CountEnds(old(Contents), delim)
    {
      count := 0;
      ghost var c := buff[..used];
      if used > 0 {
        var offset := 0;
        while offset < used
          invariant offset <= used == |c|
          invariant forall i :: offset <= i < used ==> buff[i] == c[i]
          invariant forall i :: 0 <= i < offset ==> buff[i] == if Ends(c[i], delim) then NUL else c[i]
          invariant count == CountEnds(c[..offset], delim)
        {
          var ch := buff[offset];
          assert ch == c[offset] && c[..offset + 1][..offset] == c[..offset];
          if ch == NUL || (delim.Some? && ch in delim.value) {
            buff[offset] := NUL;
            count := count + 1;
          }
          offset := offset + 1;
        }
        assert c[..used] == c;
      }
      assert buff[..used] == SplitBytes(c, delim);
      Contents := buff[..used];
    }

    /** Remove bytes from the front. */
    method Consume(bytes: nat)
      requires Valid()
      modifies this`used, this`Contents, buff
      ensures Valid()
      ensures Contents == Consumed(old(Contents), bytes)
    {
      if bytes >= used {
        used := 0;
      } else {
        var remaining := used - bytes;
        ghost var c := buff[..used];
        forall i | 0 <= i < remaining {
          buff[i] := buff[bytes + i];
        }
        assert buff[..remaining] == c[bytes..];
        used := remaining;
      }
      Contents := buff[..used];
    }
  }

  /** A position in a store, advanced token by token. */
  class StringIterator {
    const store: StringStore
    var offset: nat

    constructor (store: StringStore)
      ensures this.store == store && offset == 0
    {
      this.store := store;
      offset := 0;
    }

    /** The bytes not yet iterated over. */
    ghost function Rest(): seq<byte>
      requires store.Valid()
      reads this, store, store.buff
    {
      if offset < |store.Contents| then store.Contents[offset..] else []
    }

    /** The position and length of the next token; no position, length 0 and no
        movement when there is none. */
    method Next(delim: Option<seq<byte>>) returns (ptr: Option<nat>, length: nat)
      requires store.Valid()
      modifies this`offset
      ensures match NextLength(old(Rest()), delim)
        case Some(len) => ptr == Some(old(offset)) && length == len
        case None => ptr == None && length == 0
      ensures offset == old(offset) + length && Rest() == old(Rest())[length..]
    {
      length := 0;
      ptr := None;
      if offset < store.used {
        ptr := Some(offset);
        var remaining := store.used - offset;
        var found := delim.None?;
        ghost var rest := Rest();
        ghost var end := remaining;
        while length < remaining
          invariant length <= remaining == |rest|
          invariant found == delim.None?
          invariant forall i :: 0 <= i < length ==> !Ends(rest[i], delim)
          invariant end == remaining
        {
          var ch := store.buff[offset + length];
          assert ch == rest[length];
          length := length + 1;
          if ch == NUL || (delim.Some? && ch in delim.value) {
            found := true;
            end := length - 1;
            break;
          }
        }
        FirstEndIs(rest, delim, end);
        if !found {
          ptr := None;
          length := 0;
        }
      }
      offset := offset + length;
    }

    method NextStr() returns (ptr: Option<nat>, length: nat)
      requires store.Valid()
      modifies this`offset
      ensures match NextLength(old(Rest()), NEWLINE)
        case Some(len) => ptr == Some(old(offset)) && length == len
        case None => ptr == None && length == 0
      ensures offset == old(offset) + length
    {
      ptr, length := Next(NEWLINE);
    }
  }
}
