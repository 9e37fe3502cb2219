/**
 * A model of `java.io.InputStream` as both scripts use it: a reader over a
 * fixed byte sequence that hands back the bytes in packets of any sizes,
 * reports the end of the stream, and may lose its connection at a given
 * position.
 */
module Streams {
  import opened Common

  /** What one `read(b, off, len)` call returns: a count, -1 (end of stream), or an `IOException`. */
  datatype ReadResult = Count(n: nat) | EndOfStream | IoError

  /** A stream over `data` that breaks at `dropAt` delivers only the bytes before that position. */
  function Limit(data: seq<byte>, dropAt: Option<nat>): (k: nat)
    ensures k <= |data|
    ensures dropAt.Some? && dropAt.value <= |data| ==> k == dropAt.value
    ensures (dropAt.None? || |data| < dropAt.value) ==> k == |data|
  {
    if dropAt.Some? && dropAt.value <= |data| then dropAt.value else |data|
  }

  /** The stream ends in an `IOException` rather than with -1. */
  predicate Drops(data: seq<byte>, dropAt: Option<nat>)
  {
    dropAt.Some? && dropAt.value <= |data|
  }

  /** The bytes a reader of the stream gets in total, in order. */
  function Delivered(data: seq<byte>, dropAt: Option<nat>): (d: seq<byte>)
    ensures d <= data
    ensures !Drops(data, dropAt) ==> d == data
  {
    data[..Limit(data, dropAt)]
  }

  /** The contents of a freshly allocated Java `byte[n]`. */
  function Zeros(n: nat): (z: seq<byte>)
    ensures |z| == n && forall k :: 0 <= k < n ==> z[k] == 0
  {
    seq(n, _ => 0)
  }

  class InputStream {
    /** The bytes the source would send. */
    const data: seq<byte>
    /**
     * The most bytes one read starting at position `p` hands back (network
     * packets, file blocks): any sequence of read sizes is some `packet`.
     */
    const packet: nat -> Positive
    /** Where the connection breaks, if it does. */
    const dropAt: Option<nat>
    /** How many bytes have been handed out so far. */
    var pos: nat

    ghost predicate Valid()
      reads this
    {
      pos <= Limit(data, dropAt)
    }

    constructor (data: seq<byte>, packet: nat -> Positive, dropAt: Option<nat>)
      ensures this.data == data && this.packet == packet && this.dropAt == dropAt
      ensures pos == 0 && Valid()
    {
      this.data := data;
      this.packet := packet;
      this.dropAt := dropAt;
      pos := 0;
    }

    /**
     * `read(buffer, off, len)`: with `len == 0` it returns 0; otherwise it
     * copies between 1 and `len` bytes into `buffer[off..]`, as many as the
     * packet at the current position holds and the stream has left, or reports the
     * end of the stream, or throws when the connection has broken.
     */
    method Read(buffer: array<byte>, off: nat, len: nat) returns (r: ReadResult)
      requires Valid() && off + len <= buffer.Length
      modifies this, buffer
      ensures Valid()
      ensures len == 0 ==> r == Count(0)
      ensures 0 < len && old(pos) == Limit(data, dropAt) ==>
                r == if Drops(data, dropAt) then IoError else EndOfStream
      ensures 0 < len && old(pos) < Limit(data, dropAt) ==>
                r == Count(Min(Min(len, packet(old(pos))), Limit(data, dropAt) - old(pos)))
      ensures r.Count? ==> r.n <= len && pos == old(pos) + r.n
      ensures r.Count? ==> buffer[off..off + r.n] == data[old(pos)..pos]
      ensures !r.Count? ==> pos == old(pos)
      ensures forall t :: 0 <= t < buffer.Length && !(r.Count? && off <= t < off + r.n) ==>
                buffer[t] == old(buffer[t])
    {
      if len == 0 {
        return Count(0);
      }
      var limit := Limit(data, dropAt);
      if pos == limit {
        return if Drops(data, dropAt) then IoError else EndOfStream;
      }
      var n := Min(Min(len, packet(pos)), limit - pos);
      var start := pos;
      for k := 0 to n
        modifies buffer
        invariant buffer[off..off + k] == data[start..start + k]
        invariant forall t :: 0 <= t < buffer.Length && !(off <= t < off + k) ==> buffer[t] == old(buffer[t])
      {
        buffer[off + k] := data[start + k];
        assert buffer[off..off + k + 1] == buffer[off..off + k] + [buffer[off + k]];
      }
      pos := start + n;
      r := Count(n);
    }
  }
}
