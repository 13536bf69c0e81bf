/** Models of the io.Reader and io.Writer that signature generation is given.
    The reader is the byte sequence it still has to deliver; the writer is the byte
    sequence written so far and the room it has left. */
module Streams {
  import opened Bytes

  type Positive = n: int | n >= 1 witness 1

  function Min(a: int, b: int): (m: int)
    ensures m <= a && m <= b && (m == a || m == b)
  {
    if a <= b then a else b
  }

  /** An io.Reader. `rest` is what it will still deliver before it reports end of data
      or its first error (the caller discards read errors, so the two look the same);
      every Read delivers at most `chunk` bytes, one limit fixed for the reader. */
  class Reader {
    var rest: seq<byte>
    const chunk: Positive

    constructor (data: seq<byte>, chunk: Positive)
      ensures rest == data && this.chunk == chunk
    {
      rest := data;
      this.chunk := chunk;
    }

    /** Read into buf[lo..]: delivers as many bytes as fit, the reader has, and one call
        allows, into the front of buf[lo..], and leaves the other cells of buf alone. */
    method Read(buf: array<byte>, lo: nat) returns (n: nat)
      requires lo <= buf.Length
      modifies this, buf
      ensures n == Min(buf.Length - lo, Min(chunk, |old(rest)|))
      ensures buf[lo..lo + n] == old(rest)[..n]
      ensures rest == old(rest)[n..]
      ensures buf[..lo] == old(buf[..lo]) && buf[lo + n..] == old(buf[lo + n..])
    {
      n := Min(buf.Length - lo, Min(chunk, |rest|));
      for i := 0 to n
        modifies buf
        invariant buf[lo..lo + i] == rest[..i]
        invariant buf[..lo] == old(buf[..lo]) && buf[lo + i..] == old(buf[lo + i..])
      {
        buf[lo + i] := rest[i];
      }
      rest := rest[n..];
    }
  }

  /** An io.Writer with `room` bytes of room left. A write that does not fit writes the
      bytes that do and reports an error, as io.Writer must for a short write. */
  class Writer {
    var written: seq<byte>
    var room: nat

    constructor (room: nat)
      ensures written == [] && this.room == room
    {
      written := [];
      this.room := room;
    }

    method Write(p: seq<byte>) returns (n: nat, failed: bool)
      modifies this
      ensures n == Min(|p|, old(room))
      ensures written == old(written) + p[..n]
      ensures room == old(room) - n
      ensures failed <==> n < |p|
    {
      n := Min(|p|, room);
      written := written + p[..n];
      room := room - n;
      failed := n < |p|;
    }
  }

  /** io.ReadFull: Reads into buf, from the front, until buf is full or a Read
      delivers nothing (the reader is exhausted). */
  method ReadFull(r: Reader, buf: array<byte>) returns (n: nat)
    modifies r, buf
    ensures n == Min(buf.Length, |old(r.rest)|)
    ensures buf[..n] == old(r.rest)[..n]
    ensures r.rest == old(r.rest)[n..]
  {
    n := 0;
    while n < buf.Length
      invariant n <= buf.Length && n <= |old(r.rest)|
      invariant buf[..n] == old(r.rest)[..n]
      invariant r.rest == old(r.rest)[n..]
      decreases buf.Length - n
    {
      var k := r.Read(buf, n);
      if k == 0 {
        break;
      }
      n := n + k;
    }
  }
}
