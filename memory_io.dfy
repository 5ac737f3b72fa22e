/** The in-memory input both media modules hand to the demuxer: a byte buffer
    and a read position, with the read and seek callbacks the demuxer calls. */
module MemoryIo {
  import opened Wrappers

  /** The demuxer's end-of-file code, -MKTAG('E','O','F',' '). */
  const AvErrorEof: int := -0x2046_4F45

  /** The whence value that asks for the stream size. */
  const AvSeekSize: int := 0x1_0000

  const SeekSet: int := 0
  const SeekCur: int := 1
  const SeekEnd: int := 2

  const TwoTo64: int := 0x1_0000_0000_0000_0000
  const TwoTo63: int := 0x8000_0000_0000_0000

  function Min(a: int, b: int): int { if a <= b then a else b }

  /** The position an absolute, relative or end-relative seek aims at, computed
      in 64-bit unsigned arithmetic as the callback does (a negative offset
      wraps around); None for an unknown whence. */
  function RawTarget(pos: int, size: int, offset: int, whence: int): (r: Option<int>)
    ensures r.Some? ==> 0 <= r.value < TwoTo64
  {
    if whence == SeekSet then Some(offset % TwoTo64)
    else if whence == SeekCur then Some((pos + offset) % TwoTo64)
    else if whence == SeekEnd then Some((size + offset) % TwoTo64)
    else None
  }

  /** The target in ordinary arithmetic. */
  function IntendedTarget(pos: int, size: int, offset: int, whence: int): int {
    if whence == SeekSet then offset else if whence == SeekCur then pos + offset else size + offset
  }

  /** With buffers shorter than 2^63 bytes the unsigned wrap-around never lets a
      negative target through: the wrapped target is within [0, size] exactly
      when the intended one is, and then they agree. */
  lemma WrappedTargetInRange(pos: int, size: int, offset: int, whence: int)
    requires 0 <= pos <= size < TwoTo63
    requires -TwoTo63 <= offset < TwoTo63
    requires whence in {SeekSet, SeekCur, SeekEnd}
    ensures var t := RawTarget(pos, size, offset, whence).value;
            var x := IntendedTarget(pos, size, offset, whence);
            (t <= size <==> 0 <= x <= size) && (t <= size ==> t == x)
  {
    var x := IntendedTarget(pos, size, offset, whence);
    assert -TwoTo63 <= x < TwoTo64;
    if x < 0 {
      assert x % TwoTo64 == x + TwoTo64;
    } else {
      assert x % TwoTo64 == x;
    }
  }

  /** The bytes the converter's read callback counts as remaining: none once
      the position has reached the end. */
  function Remaining(pos: int, size: int): int {
    if pos < size then size - pos else 0
  }

  /** The sticker builder's read callback subtracts without that guard, in
      64-bit unsigned arithmetic. */
  function UnguardedRemaining(pos: int, size: int): int {
    (size - pos) % TwoTo64
  }

  /** Up to the end of the buffer, where the cursor keeps its position, the
      unguarded count equals the guarded one, so both read callbacks behave
      alike; a position past the end would wrap to an enormous count. */
  lemma UnguardedRemainingAgrees(pos: int, size: int)
    requires 0 <= pos < TwoTo64 && 0 <= size < TwoTo64
    ensures pos <= size ==> UnguardedRemaining(pos, size) == Remaining(pos, size)
    ensures pos > size ==> UnguardedRemaining(pos, size) == TwoTo64 - (pos - size) > Remaining(pos, size)
  {
    if pos > size {
      assert (size - pos) % TwoTo64 == size - pos + TwoTo64;
    } else {
      assert (size - pos) % TwoTo64 == size - pos;
    }
  }

  class BufferCtx {
    const data: string
    var pos: nat

    /** The read position never passes the end of the buffer. */
    predicate Valid()
      reads this
    {
      pos <= |data| < TwoTo63
    }

    constructor (data: string)
      requires |data| < TwoTo63
      ensures this.data == data && pos == 0 && Valid()
    {
      this.data := data;
      pos := 0;
    }

    /** The read callback: copies min(remaining, bufSize) bytes from the
        position into `buf` and advances; end of file when nothing is left. */
    method ReadPacket(buf: array<char>, bufSize: int) returns (r: int)
      requires Valid()
      requires 0 <= bufSize <= buf.Length
      modifies this`pos, buf
      ensures Valid()
      ensures var n := Min(|data| - old(pos), bufSize);
              && (n == 0 ==> r == AvErrorEof && pos == old(pos) && buf[..] == old(buf[..]))
              && (n > 0 ==> r == n && pos == old(pos) + n
                            && buf[..n] == data[old(pos)..old(pos) + n]
                            && buf[n..] == old(buf[n..]))
    {
      var rem := Remaining(pos, |data|);
      var tocpy := Min(rem, bufSize);
      if tocpy <= 0 {
        return AvErrorEof;
      }
      var start := pos;
      for k := 0 to tocpy
        invariant pos == start
        invariant buf[..k] == data[start..start + k]
        invariant buf[k..] == old(buf[k..])
      {
        buf[k] := data[start + k];
      }
      pos := start + tocpy;
      r := tocpy;
    }

    /** The seek callback: the size for a size query; otherwise moves to the
        target and returns it when it lies within [0, size], and returns -1
        without moving when it does not or when whence is unknown. */
    method SeekPacket(offset: int, whence: int) returns (r: int)
      requires Valid()
      requires -TwoTo63 <= offset < TwoTo63
      modifies this`pos
      ensures Valid()
      ensures whence == AvSeekSize ==> r == |data| && pos == old(pos)
      ensures whence != AvSeekSize && whence !in {SeekSet, SeekCur, SeekEnd} ==> r == -1 && pos == old(pos)
      ensures whence in {SeekSet, SeekCur, SeekEnd} ==>
                var x := IntendedTarget(old(pos), |data|, offset, whence);
                if 0 <= x <= |data| then r == x && pos == x else r == -1 && pos == old(pos)
    {
      if whence == AvSeekSize {
        return |data|;
      }
      var target := RawTarget(pos, |data|, offset, whence);
      if target.None? {
        return -1;
      }
      WrappedTargetInRange(pos, |data|, offset, whence);
      if target.value > |data| {
        return -1;
      }
      pos := target.value;
      r := pos;
    }
  }
}
