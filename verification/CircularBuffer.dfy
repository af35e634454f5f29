/** The byte queue behind a TCP socket (lib/cbuf.c, include/cbuf.h). */
module CircularBuffer {
  import opened Words

  /** The array index of the byte `i` places after index `tail`. */
  function Slot(tail: int, i: int, size: int): int {
    if tail + i < size then tail + i else tail + i - size
  }

  /** The `n` bytes of the ring `data` that start at index `tail`. */
  function Window(data: seq<byte>, tail: nat, n: nat): seq<byte>
    requires n <= |data| && tail <= |data|
  {
    seq(n, i requires 0 <= i < n => data[Slot(tail, i, |data|)])
  }

  lemma ModIsSlot(x: int, size: int)
    requires 0 <= x < 2 * size
    ensures x % size == Slot(x, 0, size)
  {
    if x >= size {
      assert x == 1 * size + (x - size);
    }
  }

  /** Overwriting the free slots right after the window extends it. */
  lemma WindowExtends(before: seq<byte>, after: seq<byte>, tail: nat, n: nat, chunk: seq<byte>)
    requires |before| == |after| && tail <= |before| && n + |chunk| <= |before|
    requires var at := Slot(tail, n, |before|);
      && at + |chunk| <= |before|
      && after == before[..at] + chunk + before[at + |chunk|..]
    ensures Window(after, tail, n + |chunk|) == Window(before, tail, n) + chunk
  {
  }

  class CBuf {
    var head: int   // write point
    var tail: int   // read point
    const size: nat
    const buf: array<byte>

    ghost predicate Valid()
      reads this
    {
      && buf.Length == size
      && 0 <= tail <= head <= tail + size
      && (tail < size || size == 0 == tail)
    }

    /** The queued bytes, oldest first. */
    ghost function Contents(): (s: seq<byte>)
      requires Valid()
      reads this, buf
    {
      Window(buf[..], tail, head - tail)
    }

    constructor (size: nat)
      ensures Valid() && fresh(buf) && this.size == size && Contents() == []
    {
      this.size := size;
      this.buf := new byte[size](_ => 0);
      head, tail := 0, 0;
    }

    function Used(): int
      reads this
    {
      head - tail
    }

    function Free(): int
      reads this
    {
      size - Used()
    }

    /** The write point is the slot after the last queued byte; copying to its right stays inside the array and in free space. */
    function HeadRight(): (right: int)
      requires Valid() && size > 0
      reads this
      ensures head % size == Slot(tail, head - tail, size)
      ensures Free() > 0 ==> 0 < right <= Free() && head % size + right <= size
    {
      ModIsSlot(head, size);
      ModIsSlot(tail, size);
      if head % size >= tail % size then size - head % size else tail % size - head % size
    }

    /** Copying from the right of the read point stays inside the array and makes progress. */
    function TailRight(): (right: int)
      requires buf.Length == size && 0 <= tail < head <= tail + size && head < 2 * size
      reads this
      ensures tail % size == Slot(tail, 0, size)
      ensures 0 < right && tail % size + right <= size
    {
      ModIsSlot(head, size);
      ModIsSlot(tail, size);
      if head % size > tail % size then Used() else size - tail % size
    }

    /** One `memcpy` at the write point. */
    method CopyIn(chunk: seq<byte>)
      requires Valid() && size > 0 && |chunk| <= Free() && head % size + |chunk| <= size
      modifies this`head, buf
      ensures Valid() && head == old(head) + |chunk|
      ensures Contents() == old(Contents()) + chunk
    {
      ghost var ring, right := buf[..], HeadRight();
      var at := head % size;
      forall i | 0 <= i < |chunk| {
        buf[at + i] := chunk[i];
      }
      assert buf[..] == ring[..at] + chunk + ring[at + |chunk|..];
      WindowExtends(ring, buf[..], tail, head - tail, chunk);
      head := head + |chunk|;
    }

    /** Appends as much of `data` as fits. */
    method Write(data: seq<byte>) returns (wlen: int)
      requires Valid()
      modifies this`head, buf
      ensures Valid()
      ensures wlen == Min(size - |old(Contents())|, |data|)
      ensures Contents() == old(Contents()) + data[..wlen]
    {
      wlen := Min(Free(), |data|);
      var len := wlen;
      while len > 0
        invariant 0 <= len <= wlen
        invariant Valid() && len <= Free()
        invariant Contents() == old(Contents()) + data[..wlen - len]
      {
        var onelen := Min(HeadRight(), len);
        var done := wlen - len;
        CopyIn(data[done..done + onelen]);
        len := len - onelen;
        assert data[..done] + data[done..done + onelen] == data[..wlen - len];
      }
    }

    /** Takes up to `want` bytes from the front. */
    method Read(want: int) returns (rlen: int, data: seq<byte>)
      requires Valid()
      modifies this
      ensures Valid()
      ensures rlen == Min(|old(Contents())|, want)
      ensures |data| == if rlen > 0 then rlen else 0
      ensures old(Contents()) == data + Contents()
    {
      rlen := Min(Used(), want);
      var len := rlen;
      data := [];
      while len > 0
        invariant (rlen <= 0 && len == rlen) || 0 <= len <= rlen
        invariant head == old(head) && |data| == rlen - len
        invariant tail == old(tail) + rlen - len && tail + len <= head
        invariant forall i :: 0 <= i < |data| ==> data[i] == old(Contents())[i]
      {
        var onelen := Min(TailRight(), len);
        var at := tail % size;
        data := data + buf[at..at + onelen];
        len := len - onelen;
        tail := tail + onelen;
      }
      if tail >= size {
        head := head - size;
        tail := tail - size;
      }
    }
  }
}
