/** The dynamic array of array.c: elements of one size, kept in a flat block of bytes that
    grows in chunks, and the sequence of elements it implements. */
module ByteArrays {
  import opened Bytes

  // ---- What the operations mean ----

  function InsertedAt<T>(s: seq<T>, x: T, at: nat): seq<T>
    requires at <= |s|
  {
    s[..at] + [x] + s[at..]
  }

  function DeletedAt<T>(s: seq<T>, at: nat): seq<T>
    requires at < |s|
  {
    s[..at] + s[at + 1..]
  }

  /** Deleting what was just inserted restores the array, at any position. */
  lemma DeleteUndoesInsert<T>(s: seq<T>, x: T, at: nat)
    requires at <= |s|
    ensures DeletedAt(InsertedAt(s, x, at), at) == s
  {
    var t := InsertedAt(s, x, at);
    assert t[..at] == s[..at] && t[at + 1..] == s[at..];
  }

  /** Capacity after adding whole chunks until more than `need` elements fit. */
  function Grown(capacity: nat, chunk: nat, need: nat): nat
    requires chunk > 0
    decreases need - capacity
  {
    if capacity > need then capacity else Grown(capacity + chunk, chunk, need)
  }

  lemma {:induction false} GrownByLeastChunks(capacity: nat, chunk: nat, need: nat) returns (chunks: nat)
    requires chunk > 0
    ensures Grown(capacity, chunk, need) == capacity + chunks * chunk > need
    ensures forall fewer: nat :: fewer < chunks ==> capacity + fewer * chunk <= need
    decreases need - capacity
  {
    if capacity > need {
      chunks := 0;
    } else {
      var c := GrownByLeastChunks(capacity + chunk, chunk, need);
      chunks := c + 1;
      forall fewer: nat | fewer < chunks
        ensures capacity + fewer * chunk <= need
      {
        if fewer > 0 {
          assert capacity + chunk + (fewer - 1) * chunk <= need;
        }
      }
    }
  }

  /** A whole number of chunks. */
  predicate WholeChunks(capacity: nat, chunk: nat) {
    capacity == 0 || (chunk > 0 && capacity >= chunk && WholeChunks(capacity - chunk, chunk))
  }

  lemma {:induction false} WholeChunksIsMultiple(capacity: nat, chunk: nat) returns (chunks: nat)
    requires WholeChunks(capacity, chunk)
    ensures capacity == chunks * chunk
  {
    if capacity == 0 {
      chunks := 0;
    } else {
      var c := WholeChunksIsMultiple(capacity - chunk, chunk);
      chunks := c + 1;
    }
  }

  lemma {:induction false} GrowsByWholeChunks(capacity: nat, chunk: nat, need: nat)
    requires chunk > 0 && WholeChunks(capacity, chunk)
    ensures WholeChunks(Grown(capacity, chunk, need), chunk)
    decreases need - capacity
  {
    if capacity <= need {
      GrowsByWholeChunks(capacity + chunk, chunk, need);
    }
  }

  /** When the capacity has to grow it becomes the least multiple of the chunk size above
      what is needed. */
  lemma GrownIsLeastMultiple(capacity: nat, chunk: nat, need: nat) returns (least: nat)
    requires chunk > 0 && WholeChunks(capacity, chunk) && capacity <= need
    ensures Grown(capacity, chunk, need) == least * chunk > need
    ensures forall m: nat :: m < least ==> m * chunk <= need
  {
    var chunks := WholeChunksIsMultiple(capacity, chunk);
    var more := GrownByLeastChunks(capacity, chunk, need);
    least := chunks + more;
    assert least * chunk == chunks * chunk + more * chunk;
    forall m: nat | m < least
      ensures m * chunk <= need
    {
      if m < chunks {
        Ordered(m, chunks, chunk);
      } else {
        assert capacity + (m - chunks) * chunk <= need;
        assert m * chunk == chunks * chunk + (m - chunks) * chunk;
      }
    }
  }

  // ---- Elements in a flat block ----

  /** Element `i` of a block of elements of one size. */
  function Element(d: seq<byte>, size: nat, i: nat): seq<byte>
    requires i * size + size <= |d|
  {
    d[i * size..i * size + size]
  }

  lemma Fits(i: nat, count: nat, size: nat)
    requires i < count
    ensures i * size + size <= count * size
  {
    Ordered(i + 1, count, size);
    assert (i + 1) * size == i * size + size;
  }

  /** The first `count` elements. */
  function Elements(d: seq<byte>, size: nat, count: nat): (es: seq<seq<byte>>)
    requires count * size <= |d|
    ensures |es| == count
  {
    if count == 0 then []
    else
      Fits(count - 1, count, size);
      Elements(d, size, count - 1) + [Element(d, size, count - 1)]
  }

  lemma {:induction false} ElementsAt(d: seq<byte>, size: nat, count: nat, i: nat)
    requires count * size <= |d| && i < count
    ensures i * size + size <= |d| && Elements(d, size, count)[i] == Element(d, size, i)
  {
    Fits(i, count, size);
    Fits(count - 1, count, size);
    if i < count - 1 {
      ElementsAt(d, size, count - 1, i);
    }
  }

  /** Bytes moved up by `step` are found again as a slice, `step` higher. */
  lemma SliceMoved(d: seq<byte>, e: seq<byte>, lo: nat, hi: nat, step: nat, a: nat, len: nat)
    requires lo <= hi <= |d| && hi + step <= |e|
    requires forall p :: lo <= p < hi ==> e[p + step] == d[p]
    requires lo <= a && a + len <= hi
    ensures e[a + step..a + step + len] == d[a..a + len]
  {
  }

  lemma SliceMovedDown(d: seq<byte>, e: seq<byte>, lo: nat, hi: nat, step: nat, a: nat, len: nat)
    requires lo <= hi <= |e| && hi + step <= |d|
    requires forall p :: lo <= p < hi ==> e[p] == d[p + step]
    requires lo <= a && a + len <= hi
    ensures e[a..a + len] == d[a + step..a + step + len]
  {
  }

  lemma {:induction false} ElementsSame(d: seq<byte>, e: seq<byte>, size: nat, count: nat)
    requires count * size <= |d| && count * size <= |e|
    requires forall p :: 0 <= p < count * size ==> e[p] == d[p]
    ensures Elements(e, size, count) == Elements(d, size, count)
  {
    if count > 0 {
      Fits(count - 1, count, size);
      Ordered(count - 1, count, size);
      ElementsSame(d, e, size, count - 1);
      SliceMoved(d, e, 0, count * size, 0, (count - 1) * size, size);
    }
  }

  /** `e` is `d` with the element at `at` replaced. */
  ghost predicate Replaces(d: seq<byte>, e: seq<byte>, size: nat, count: nat, at: nat, x: seq<byte>) {
    && |e| == |d| && count * size <= |d| && at < count && |x| == size && at * size + size <= |d|
    && (forall p :: 0 <= p < |d| && !(at * size <= p < at * size + size) ==> e[p] == d[p])
    && e[at * size..at * size + size] == x
  }

  lemma ReplaceOther(d: seq<byte>, e: seq<byte>, size: nat, count: nat, at: nat, x: seq<byte>, i: nat)
    requires Replaces(d, e, size, count, at, x) && i < count && i != at
    ensures i * size + size <= |d| && Element(e, size, i) == Element(d, size, i)
  {
    Fits(i, count, size);
    if i < at {
      Fits(i, at, size);
      SliceMoved(d, e, 0, at * size, 0, i * size, size);
    } else {
      Fits(at, i, size);
      SliceMoved(d, e, at * size + size, |d|, 0, i * size, size);
    }
  }

  lemma ReplaceElement(d: seq<byte>, e: seq<byte>, size: nat, count: nat, at: nat, x: seq<byte>)
    requires Replaces(d, e, size, count, at, x)
    ensures Elements(e, size, count) == Elements(d, size, count)[at := x]
  {
    forall i | 0 <= i < count
      ensures Elements(e, size, count)[i] == Elements(d, size, count)[at := x][i]
    {
      ElementsAt(d, size, count, i);
      ElementsAt(e, size, count, i);
      if i != at {
        ReplaceOther(d, e, size, count, at, x, i);
      }
    }
  }

  /** `e` is `d` with a gap for an element opened at `at` and filled. */
  ghost predicate Inserts(d: seq<byte>, e: seq<byte>, size: nat, count: nat, at: nat, x: seq<byte>) {
    && |e| == |d| && count * size + size <= |d| && at <= count && |x| == size && at * size <= count * size
    && (forall p :: 0 <= p < at * size ==> e[p] == d[p])
    && e[at * size..at * size + size] == x
    && (forall p :: at * size <= p < count * size ==> e[p + size] == d[p])
  }

  lemma InsertBelow(d: seq<byte>, e: seq<byte>, size: nat, count: nat, at: nat, x: seq<byte>, i: nat)
    requires Inserts(d, e, size, count, at, x) && i < at
    ensures i * size + size <= |d| && Element(e, size, i) == Element(d, size, i)
  {
    Fits(i, at, size);
    SliceMoved(d, e, 0, at * size, 0, i * size, size);
  }

  lemma InsertAbove(d: seq<byte>, e: seq<byte>, size: nat, count: nat, at: nat, x: seq<byte>, i: nat)
    requires Inserts(d, e, size, count, at, x) && at <= i < count
    ensures i * size + size <= |d| && (i + 1) * size + size <= |d|
    ensures Element(e, size, i + 1) == Element(d, size, i)
  {
    Fits(i, count, size);
    Ordered(at, i, size);
    assert (i + 1) * size == i * size + size;
    SliceMoved(d, e, at * size, count * size, size, i * size, size);
  }

  lemma InsertElement(d: seq<byte>, e: seq<byte>, size: nat, count: nat, at: nat, x: seq<byte>)
    requires Inserts(d, e, size, count, at, x) && (count + 1) * size <= |e|
    ensures Elements(e, size, count + 1) == InsertedAt(Elements(d, size, count), x, at)
  {
    forall i | 0 <= i < count + 1
      ensures Elements(e, size, count + 1)[i] == InsertedAt(Elements(d, size, count), x, at)[i]
    {
      ElementsAt(e, size, count + 1, i);
      if i < at {
        ElementsAt(d, size, count, i);
        InsertBelow(d, e, size, count, at, x, i);
      } else if i > at {
        ElementsAt(d, size, count, i - 1);
        InsertAbove(d, e, size, count, at, x, i - 1);
      }
    }
  }

  /** `e` is `d` with the elements behind `at` moved down by one. */
  ghost predicate Deletes(d: seq<byte>, e: seq<byte>, size: nat, count: nat, at: nat) {
    && |e| == |d| && at < count && count * size <= |d| && at * size + size <= count * size
    && (forall p :: 0 <= p < at * size ==> e[p] == d[p])
    && (forall p :: at * size <= p < count * size - size ==> e[p] == d[p + size])
  }

  lemma DeleteBelow(d: seq<byte>, e: seq<byte>, size: nat, count: nat, at: nat, i: nat)
    requires Deletes(d, e, size, count, at) && i < at
    ensures i * size + size <= |d| && Element(e, size, i) == Element(d, size, i)
  {
    Fits(i, at, size);
    SliceMoved(d, e, 0, at * size, 0, i * size, size);
  }

  lemma DeleteAbove(d: seq<byte>, e: seq<byte>, size: nat, count: nat, at: nat, i: nat)
    requires Deletes(d, e, size, count, at) && at <= i < count - 1
    ensures (i + 1) * size + size <= |d| && i * size + size <= |d|
    ensures Element(e, size, i) == Element(d, size, i + 1)
  {
    Fits(i + 1, count, size);
    Ordered(at, i, size);
    assert (i + 1) * size == i * size + size;
    SliceMovedDown(d, e, at * size, count * size - size, size, i * size, size);
  }

  lemma DeleteElement(d: seq<byte>, e: seq<byte>, size: nat, count: nat, at: nat)
    requires Deletes(d, e, size, count, at) && (count - 1) * size <= |e|
    ensures Elements(e, size, count - 1) == DeletedAt(Elements(d, size, count), at)
  {
    forall i | 0 <= i < count - 1
      ensures Elements(e, size, count - 1)[i] == DeletedAt(Elements(d, size, count), at)[i]
    {
      ElementsAt(e, size, count - 1, i);
      if i < at {
        ElementsAt(d, size, count, i);
        DeleteBelow(d, e, size, count, at, i);
      } else {
        ElementsAt(d, size, count, i + 1);
        DeleteAbove(d, e, size, count, at, i);
      }
    }
  }

  // ---- Positions ----

  /** The index of the element at a byte offset, or -1 outside the elements; the offset
      just behind the last element counts as inside. */
  function IndexOf(ptr: int, size: nat, end: nat): int
    requires size > 0
  {
    if ptr < 0 || ptr > size * end then -1 else ptr / size
  }

  /** Every offset inside an element leads back to its index. */
  lemma IndexOfElement(i: nat, r: nat, size: nat, end: nat)
    requires i < end && r < size
    ensures IndexOf(i * size + r, size, end) == i
  {
    Fits(i, end, size);
    assert end * size == size * end;
    Quotient(i, r, size);
  }

  /** An offset has the index of an element exactly when it lies inside the elements, and then
      lies inside that one; just behind the last one the index is their number, not -1. */
  lemma IndexIsInBounds(ptr: int, size: nat, end: nat)
    requires size > 0
    ensures 0 <= IndexOf(ptr, size, end) < end <==> 0 <= ptr < size * end
    ensures var i := IndexOf(ptr, size, end); 0 <= i < end ==> i * size <= ptr < i * size + size
    ensures IndexOf(size * end, size, end) == end
  {
    Quotient(end, 0, size);
    assert end * size == size * end >= 0;
    if 0 <= ptr < size * end {
      var q := ptr / size;
      assert ptr == q * size + ptr % size;
      if q >= end {
        Ordered(end, q, size);
      }
    }
  }

  lemma Quotient(q: nat, r: nat, d: nat)
    requires r < d
    ensures (q * d + r) / d == q
  {
    var n := q * d + r;
    var k := n / d;
    assert n == k * d + n % d;
    assert (k + 1) * d == k * d + d && (q + 1) * d == q * d + d;
    if k < q {
      Ordered(k + 1, q, d);
    } else if k > q {
      Ordered(q + 1, k, d);
    }
  }

  // ---- The array ----

  class ByteArray {
    const size: nat
    const chunk: nat
    var all: nat
    var end: nat
    var data: array<byte>

    /** There is always room for one more element, and the capacity is whole chunks. */
    ghost predicate Valid()
      reads this, data
    {
      && size > 0 && chunk > 0
      && WholeChunks(all, chunk) && end < all
      && data.Length == all * size && end * size + size <= data.Length
    }

    ghost function Contents(): (es: seq<seq<byte>>)
      requires Valid()
      reads this, data
      ensures |es| == end
    {
      Elements(data[..], size, end)
    }

    constructor (size: nat, count: nat)
      requires size > 0
      ensures Valid() && Contents() == [] && this.size == size && fresh(data)
      ensures chunk == (if count != 0 then count else 8) && all == Grown(0, chunk, 1)
    {
      this.size := size;
      chunk := if count != 0 then count else 8;
      all, end := 0, 0;
      data := new byte[0];
      new;
      CheckAlloc(0);
    }

    /** Room for more elements: whole chunks are added, and new memory is zero. */
    method CheckAlloc(elements: nat)
      requires size > 0 && chunk > 0 && WholeChunks(all, chunk) && data.Length == all * size && end <= all
      requires end * size <= data.Length
      modifies this`all, this`data
      ensures Valid() && (data == old(data) || fresh(data))
      ensures all == Grown(old(all), chunk, end + if elements == 0 then 1 else elements)
      ensures end + (if elements == 0 then 1 else elements) < all && old(all) * size <= data.Length
      ensures data[..old(all) * size] == old(data[..])
      ensures forall p :: old(all) * size <= p < data.Length ==> data[p] == 0
    {
      var want := if elements == 0 then 1 else elements;
      var count := all;
      while count <= end + want
        invariant count >= all
        invariant Grown(count, chunk, end + want) == Grown(all, chunk, end + want)
        decreases end + want - count
      {
        count := count + chunk;
      }
      Ordered(all, count, size);
      Fits(end, count, size);
      if count > all {
        GrowsByWholeChunks(all, chunk, end + want);
        Enlarge(count);
      }
    }

    method Enlarge(count: nat)
      requires all <= count && data.Length == all * size <= count * size
      modifies this`all, this`data
      ensures all == count && fresh(data) && data.Length == count * size
      ensures data[..old(all) * size] == old(data[..])
      ensures forall p :: old(all) * size <= p < data.Length ==> data[p] == 0
    {
      var before := data;
      var buf := new byte[count * size];
      forall p | 0 <= p < buf.Length {
        buf[p] := if p < before.Length then before[p] else 0;
      }
      data := buf;
      all := count;
    }

    /** The byte offset of an element, if there is one. */
    method Get(index: nat) returns (ptr: Option<nat>)
      requires Valid()
      ensures ptr == if index < end then Some(index * size) else None
      ensures ptr.Some? ==> ptr.value + size <= data.Length
      ensures ptr.Some? ==> data[ptr.value..ptr.value + size] == Contents()[index]
    {
      if index >= end {
        ptr := None;
      } else {
        Fits(index, end, size);
        ElementsAt(data[..], size, end, index);
        ptr := Some(index * size);
      }
    }

    method Put(element: seq<byte>, at: nat) returns (ptr: Option<nat>)
      requires Valid() && |element| == size
      modifies data
      ensures Valid() && ptr == if at < end then Some(at * size) else None
      ensures Contents() == if at < end then old(Contents())[at := element] else old(Contents())
    {
      ghost var d := data[..];
      ptr := Get(at);
      if ptr.Some? {
        forall p | 0 <= p < size {
          data[ptr.value + p] := element[p];
        }
        ReplaceElement(d, data[..], size, end, at, element);
      }
    }

    /** A new last element, holding whatever its memory held before. */
    method New() returns (ptr: nat)
      requires Valid()
      modifies this`all, this`data, this`end
      ensures Valid() && (data == old(data) || fresh(data))
      ensures ptr == old(end) * size && end == old(end) + 1 && ptr + size <= data.Length
      ensures Contents() == old(Contents()) + [data[ptr..ptr + size]]
      ensures all == Grown(old(all), chunk, old(end) + 1)
    {
      ghost var d := data[..];
      CheckAlloc(1);
      ElementsSame(d, data[..], size, end);
      ptr := TakeLast();
    }

    /** Count one more element. */
    method TakeLast() returns (ptr: nat)
      requires Valid() && end + 1 < all
      modifies this`end
      ensures Valid() && ptr == old(end) * size && end == old(end) + 1 && ptr + size <= data.Length
      ensures Contents() == old(Contents()) + [data[ptr..ptr + size]]
    {
      GapFits(end, end, all, size);
      ptr := end * size;
      end := end + 1;
      assert data[..][ptr..ptr + size] == data[ptr..ptr + size];
    }

    method Append(element: seq<byte>) returns (ptr: nat)
      requires Valid() && |element| == size
      modifies this`all, this`data, this`end, data
      ensures Valid() && (data == old(data) || fresh(data))
      ensures ptr == old(end) * size && Contents() == old(Contents()) + [element]
      ensures all == Grown(old(all), chunk, old(end) + 1)
    {
      ptr := New();
      ghost var es := Contents();
      var put := Put(element, end - 1);
      assert es[end - 1 := element] == es[..end - 1] + [element];
    }

    /** The bytes of a range are moved up by the length of a piece, which takes their place. */
    method MoveUp(from: nat, to: nat, piece: seq<byte>)
      requires from <= to && to + |piece| <= data.Length
      modifies data
      ensures forall p :: 0 <= p < from ==> data[p] == old(data[p])
      ensures data[from..from + |piece|] == piece
      ensures forall p :: from <= p < to ==> data[p + |piece|] == old(data[p])
    {
      forall p | from <= p < to {
        data[p + |piece|] := data[p];
      }
      forall p | 0 <= p < |piece| {
        data[from + p] := piece[p];
      }
    }

    static lemma GapFits(at: nat, end: nat, all: nat, size: nat)
      requires at <= end && end + 1 < all
      ensures at * size <= end * size && (end + 1) * size == end * size + size
      ensures (end + 1) * size + size <= all * size
    {
      Ordered(at, end, size);
      Fits(end + 1, all, size);
    }

    /** Open a gap for an element and fill it. */
    method OpenGap(at: nat, element: seq<byte>)
      requires Valid() && at <= end && |element| == size && end + 1 < all
      modifies this`end, data
      ensures Valid() && end == old(end) + 1
      ensures Contents() == InsertedAt(old(Contents()), element, at)
    {
      ghost var d := data[..];
      GapFits(at, end, all, size);
      FillGap(at, element);
      InsertElement(d, data[..], size, end, at, element);
      end := end + 1;
    }

    method FillGap(at: nat, element: seq<byte>)
      requires |element| == size && at <= end && at * size <= end * size
      requires end * size + size <= data.Length
      modifies data
      ensures Inserts(old(data[..]), data[..], size, end, at, element)
    {
      ghost var d := data[..];
      MoveUp(at * size, end * size, element);
      ghost var e := data[..];
      assert forall p :: 0 <= p < at * size ==> e[p] == d[p];
      assert forall p :: at * size <= p < end * size ==> e[p + size] == d[p];
    }

    /** A zeroed element at any position up to the end. */
    method NewAt(index: nat) returns (ptr: Option<nat>)
      requires Valid()
      modifies this`all, this`data, this`end, data
      ensures Valid() && (data == old(data) || fresh(data))
      ensures ptr == if index <= old(end) then Some(index * size) else None
      ensures Contents() ==
        if index <= old(end) then InsertedAt(old(Contents()), seq(size, _ => 0), index) else old(Contents())
      ensures all == if index <= old(end) then Grown(old(all), chunk, old(end) + 1) else old(all)
    {
      if index >= end + 1 {
        ptr := None;
      } else {
        ghost var d := data[..];
        CheckAlloc(1);
        ElementsSame(d, data[..], size, end);
        ptr := Some(index * size);
        OpenGap(index, seq(size, _ => 0));
      }
    }

    method Insert(element: seq<byte>, at: nat) returns (ptr: Option<nat>)
      requires Valid() && |element| == size
      modifies this`all, this`data, this`end, data
      ensures Valid() && (data == old(data) || fresh(data))
      ensures ptr == if at <= old(end) then Some(at * size) else None
      ensures Contents() == if at <= old(end) then InsertedAt(old(Contents()), element, at) else old(Contents())
    {
      ghost var es := Contents();
      ptr := NewAt(at);
      if ptr.Some? {
        var put := Put(element, at);
        assert InsertedAt(es, seq(size, _ => 0), at)[at := element] == InsertedAt(es, element, at);
      }
    }

    /** The index of the element a byte offset lies in, or -1. */
    method Index(ptr: int) returns (index: int)
      requires Valid()
      ensures index == IndexOf(ptr, size, end)
      ensures 0 <= index < end <==> 0 <= ptr < size * end
      ensures 0 <= index < end ==> index * size <= ptr < index * size + size
    {
      IndexIsInBounds(ptr, size, end);
      if ptr < 0 || ptr > size * end {
        index := -1;
      } else {
        index := ptr / size;
      }
    }

    /** Remove an element; the capacity stays. Returns how many are left. */
    method Delete(at: nat) returns (left: Option<nat>)
      requires Valid()
      modifies this`end, data
      ensures Valid() && all == old(all)
      ensures left == if at < old(end) then Some(old(end) - 1) else None
      ensures Contents() == if at < old(end) then DeletedAt(old(Contents()), at) else old(Contents())
    {
      left := None;
      if at < end {
        CloseGap(at);
        left := Some(end);
      }
    }

    method CloseGap(at: nat)
      requires Valid() && at < end
      modifies this`end, data
      ensures Valid() && end == old(end) - 1
      ensures Contents() == DeletedAt(old(Contents()), at)
    {
      ghost var d := data[..];
      Fits(at, end, size);
      assert end * size == (end - 1) * size + size;
      end := end - 1;
      if at < end {
        CoverElement(at);
      }
      DeleteElement(d, data[..], size, end + 1, at);
    }

    method CoverElement(at: nat)
      requires at <= end && at * size + size <= (end + 1) * size == end * size + size <= data.Length
      modifies data
      ensures Deletes(old(data[..]), data[..], size, end + 1, at)
    {
      ghost var d := data[..];
      MoveDown(at * size, end * size);
      ghost var e := data[..];
      assert forall p :: 0 <= p < at * size ==> e[p] == d[p];
      assert forall p :: at * size <= p < end * size ==> e[p] == d[p + size];
    }

    /** The bytes one element behind a range are moved into it. */
    method MoveDown(from: nat, to: nat)
      requires from <= to && to + size <= data.Length
      modifies data
      ensures forall p :: 0 <= p < from ==> data[p] == old(data[p])
      ensures forall p :: from <= p < to ==> data[p] == old(data[p + size])
    {
      forall p | from <= p < to {
        data[p] := data[p + size];
      }
    }
  }
}
