/** The fixed-capacity circular byte FIFO of `IOCP_Server/RingBuffer.h`.
    One array, a write index `head`, a read index `tail` and a byte count
    `dataSize`; one slot is always left empty, so a buffer of capacity `C`
    holds at most `C - 1` bytes. The ghost sequence `Contents` is the FIFO
    the three fields stand for. */
module RingBuf {
  import opened Bytes

  const DEFAULT_CAPACITY: nat := 8192
  /** `size_t` is 64 bits wide on the server's target. */
  const SIZE_T_LIMIT: nat := 0x1_0000_0000_0000_0000

  /** The circular successor of a position below `2 * cap`. */
  function Wrap(i: nat, cap: nat): (r: nat)
    requires 0 < cap && i < 2 * cap
    ensures r < cap
  {
    if i < cap then i else i - cap
  }

  /** The source's `% capacity` on an index below `2 * capacity` is `Wrap`. */
  lemma ModIsWrap(i: nat, cap: nat)
    requires 0 < cap && i < 2 * cap
    ensures i % cap == Wrap(i, cap)
  {
    if i < cap {
      assert i == 0 * cap + i;
    } else {
      assert i == 1 * cap + (i - cap);
    }
  }

  /** `memcpy(dst + at, src + from, n)` */
  method Memcpy(dst: array<Byte>, at: nat, src: seq<Byte>, from: nat, n: nat)
    requires at + n <= dst.Length && from + n <= |src|
    modifies dst
    ensures forall p :: 0 <= p < dst.Length ==>
      dst[p] == if at <= p < at + n then src[from + p - at] else old(dst[p])
  {
    var i := 0;
    while i < n
      invariant 0 <= i <= n
      invariant forall p :: 0 <= p < dst.Length ==>
        dst[p] == if at <= p < at + i then src[from + p - at] else old(dst[p])
    {
      dst[at + i] := src[from + i];
      i := i + 1;
    }
  }

  class RingBuffer {
    ghost var Contents: seq<Byte>

    const buffer: array<Byte>
    var head: nat
    var tail: nat
    var dataSize: nat

    ghost predicate Valid()
      reads this, buffer
    {
      && 0 < buffer.Length < SIZE_T_LIMIT - 1
      && head < buffer.Length && tail < buffer.Length
      && dataSize <= buffer.Length - 1
      && head == Wrap(tail + dataSize, buffer.Length)
      && |Contents| == dataSize
      && (forall k :: 0 <= k < dataSize ==>
            Contents[k] == buffer[Wrap(tail + k, buffer.Length)])
    }

    function Capacity(): nat
      reads this
    {
      buffer.Length
    }

    /** `RingBuffer()`: the default capacity of 8192 bytes, empty. */
    constructor ()
      ensures Valid() && fresh(buffer)
      ensures buffer.Length == DEFAULT_CAPACITY
      ensures head == 0 && tail == 0 && dataSize == 0 && Contents == []
    {
      buffer := new Byte[DEFAULT_CAPACITY](_ => 0);
      head, tail, dataSize := 0, 0, 0;
      Contents := [];
    }

    /** `RingBuffer(cap)` */
    constructor WithCapacity(cap: nat)
      requires 0 < cap < SIZE_T_LIMIT - 1
      ensures Valid() && fresh(buffer)
      ensures buffer.Length == cap
      ensures head == 0 && tail == 0 && dataSize == 0 && Contents == []
    {
      buffer := new Byte[cap](_ => 0);
      head, tail, dataSize := 0, 0, 0;
      Contents := [];
    }

    /** `GetFreeSize()`: what `Write` still accepts. */
    function GetFreeSize(): (r: nat)
      requires Valid()
      reads this, buffer
      ensures r + dataSize + 1 == Capacity()
      ensures r == Capacity() - 1 - |Contents|
    {
      buffer.Length - dataSize - 1
    }

    function GetDataSize(): (r: nat)
      requires Valid()
      reads this, buffer
      ensures r == |Contents|
    {
      dataSize
    }

    function IsEmpty(): (r: bool)
      requires Valid()
      reads this, buffer
      ensures r <==> Contents == []
    {
      dataSize == 0
    }

    /** `IsFull()` as written: `buffer.size() >= dataSize - 1` in `size_t`
        arithmetic. For an empty buffer `dataSize - 1` wraps to the largest
        `size_t`, so the answer is false; for any other fill level it is
        true, although the buffer may be nearly empty. */
    function IsFull(): (r: bool)
      requires Valid()
      reads this, buffer
      ensures r <==> dataSize >= 1
      ensures r <==> Contents != []
    {
      buffer.Length >= (dataSize - 1) % SIZE_T_LIMIT
    }

    /** What `IsFull` evidently means: no byte can be written any more. */
    function IsFullIntended(): (r: bool)
      requires Valid()
      reads this, buffer
      ensures r <==> |Contents| == Capacity() - 1
    {
      GetFreeSize() == 0
    }

    /** `Write(data, len)`: all of `data` or nothing. The part that does not
        fit before the end of the array goes to its start. */
    method Write(data: seq<Byte>) returns (ok: bool)
      requires Valid()
      modifies this, buffer
      ensures Valid()
      ensures ok <==> |data| <= old(GetFreeSize())
      ensures ok ==> Contents == old(Contents) + data
                     && tail == old(tail) && dataSize == old(dataSize) + |data|
      ensures !ok ==> Contents == old(Contents) && head == old(head)
                      && tail == old(tail) && dataSize == old(dataSize)
                      && buffer[..] == old(buffer[..])
    {
      if GetFreeSize() < |data| {
        return false;
      }
      ghost var oldSize := dataSize;
      CopyIn(data);
      ModIsWrap(head + |data|, buffer.Length);
      head := (head + |data|) % buffer.Length;
      dataSize := dataSize + |data|;
      Contents := Contents + data;
      forall k | 0 <= k < dataSize
        ensures Contents[k] == buffer[Wrap(tail + k, buffer.Length)]
      {
        if k >= oldSize {
          assert Wrap(tail + k, buffer.Length) == Wrap(old(head) + (k - oldSize), buffer.Length);
        }
      }
      ok := true;
    }

    /** The copy of `Write`: the bytes up to the end of the array after
        `head`, and the rest from the array's start. The bytes the buffer
        holds stay where they are. */
    method CopyIn(data: seq<Byte>)
      requires Valid() && |data| <= GetFreeSize()
      modifies buffer
      ensures forall k :: 0 <= k < |data| ==> buffer[Wrap(head + k, buffer.Length)] == data[k]
      ensures forall k :: 0 <= k < dataSize ==> Contents[k] == buffer[Wrap(tail + k, buffer.Length)]
    {
      var capacity := buffer.Length;
      var len := |data|;
      var firstPart := if len < capacity - head then len else capacity - head;
      Memcpy(buffer, head, data, 0, firstPart);
      if len > firstPart {
        Memcpy(buffer, 0, data, firstPart, len - firstPart);
      }
      forall k | 0 <= k < len
        ensures buffer[Wrap(head + k, capacity)] == data[k]
      {
        assert Wrap(head + k, capacity) == if k < firstPart then head + k else k - firstPart;
        assert len > firstPart ==> head + k >= len - firstPart;
      }
      forall k | 0 <= k < dataSize
        ensures Contents[k] == buffer[Wrap(tail + k, capacity)]
      {
        var p := Wrap(tail + k, capacity);
        assert !(head <= p < head + firstPart);
        assert len > firstPart ==> p >= len - firstPart;
      }
    }

    /** `Peek(out, len)`: the first `len` bytes, without consuming them. */
    method Peek(len: nat) returns (ok: bool, out: seq<Byte>)
      requires Valid()
      ensures ok <==> len <= |Contents|
      ensures ok ==> out == Contents[..len]
      ensures !ok ==> out == []
    {
      if dataSize < len {
        return false, [];
      }
      var capacity := buffer.Length;
      var firstPart := if len < capacity - tail then len else capacity - tail;
      out := buffer[tail..tail + firstPart];
      if len > firstPart {
        out := out + buffer[..len - firstPart];
      }
      assert |out| == len;
      forall k | 0 <= k < len
        ensures out[k] == Contents[k]
      {
        assert Wrap(tail + k, capacity) == if k < firstPart then tail + k else k - firstPart;
      }
      ok := true;
    }

    /** `Consume(len)`: drops up to `len` bytes from the front. */
    method Consume(len: nat)
      requires Valid()
      modifies this
      ensures Valid()
      ensures var n := if len > old(dataSize) then old(dataSize) else len;
              Contents == old(Contents)[n..] && dataSize == old(dataSize) - n
      ensures head == old(head)
    {
      var n := len;
      if n > dataSize {
        n := dataSize;
      }
      ModIsWrap(tail + n, buffer.Length);
      tail := (tail + n) % buffer.Length;
      dataSize := dataSize - n;
      Contents := Contents[n..];
    }
  }

  /** Round trip: bytes written into an empty buffer are peeked back unchanged. */
  method WriteThenPeek(data: seq<Byte>) returns (ok: bool, out: seq<Byte>)
    ensures ok <==> |data| < DEFAULT_CAPACITY
    ensures ok ==> out == data
  {
    var rb := new RingBuffer();
    ok := rb.Write(data);
    if ok {
      ok, out := rb.Peek(|data|);
    } else {
      out := [];
    }
  }
}
