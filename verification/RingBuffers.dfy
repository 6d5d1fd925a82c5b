/**
 The circular buffers of the JTAG UART driver, seen as sequences.

 A ring of |buf| cells with read index "out" and write index "in_" holds the cells from "out"
 up to, but not including, "in_", wrapping at the end of the array.  One cell is always left
 free, so equal indices mean an empty ring.
 */
module RingBuffers {
  import opened Arithmetic

  /** The two indices point into the buffer. */
  predicate IsRing(buf: seq<byte>, out: nat, in_: nat) {
    2 <= |buf| && out < |buf| && in_ < |buf|
  }

  /** The bytes waiting in the ring, oldest first. */
  function Ring(buf: seq<byte>, out: nat, in_: nat): (r: seq<byte>)
    requires IsRing(buf, out, in_)
    ensures |r| < |buf|
  {
    if out <= in_ then buf[out..in_] else buf[out..] + buf[..in_]
  }

  /** How many bytes wait in a ring of "len" cells. */
  function Occupied(len: nat, out: nat, in_: nat): nat
    requires out < len && in_ < len
  {
    if out <= in_ then in_ - out else len - out + in_
  }

  /** The index n cells further round the ring. */
  function Advance(len: nat, index: nat, n: nat): (r: nat)
    requires index < len && n <= len
    ensures r < len
  {
    if index + n < len then index + n else index + n - len
  }

  /** The driver computes the next index with the remainder operator. */
  lemma AdvanceIsRemainder(len: nat, index: nat, n: nat)
    requires index < len && n <= len
    ensures (index + n) % len == Advance(len, index, n)
  {
    if index + n < len {
      Quotient(index + n, len, 0, index + n);
    } else {
      Quotient(index + n, len, 1, index + n - len);
    }
  }

  predicate Full(len: nat, out: nat, in_: nat)
    requires in_ < len
  {
    Advance(len, in_, 1) == out
  }

  /** Moving the write index over n filled cells appends exactly these cells. */
  lemma RingAppend(buf: seq<byte>, out: nat, in_: nat, n: nat)
    requires IsRing(buf, out, in_)
    requires in_ + n <= |buf| && Occupied(|buf|, out, in_) + n < |buf|
    ensures Ring(buf, out, Advance(|buf|, in_, n)) == Ring(buf, out, in_) + buf[in_..in_ + n]
  {
    if in_ + n == |buf| {
      assert buf[out..in_] + buf[in_..in_ + n] == buf[out..] + buf[..0];
    } else if out <= in_ {
      assert buf[out..in_] + buf[in_..in_ + n] == buf[out..in_ + n];
    } else {
      assert buf[..in_] + buf[in_..in_ + n] == buf[..in_ + n];
    }
  }

  /** Moving the read index over n occupied cells removes exactly these cells from the front. */
  lemma RingRemove(buf: seq<byte>, out: nat, in_: nat, n: nat)
    requires IsRing(buf, out, in_)
    requires out + n <= |buf| && n <= Occupied(|buf|, out, in_)
    ensures Ring(buf, out, in_) == buf[out..out + n] + Ring(buf, Advance(|buf|, out, n), in_)
  {
    var next := Advance(|buf|, out, n);
    if out <= in_ {
      assert buf[out..in_] == buf[out..out + n] + buf[next..in_];
    } else {
      assert buf[out..] == buf[out..out + n] + buf[out + n..];
      if next == 0 {
        assert buf[out + n..] == [] && buf[0..in_] == buf[..in_];
      } else {
        assert buf[out..] + buf[..in_] == buf[out..out + n] + (buf[next..] + buf[..in_]);
      }
    }
  }

  /** A store into a cell that is not occupied leaves the waiting bytes alone. */
  lemma RingStoreElsewhere(buf: seq<byte>, out: nat, in_: nat, j: nat, b: byte)
    requires IsRing(buf, out, in_) && j < |buf|
    requires if out <= in_ then j < out || in_ <= j else in_ <= j < out
    ensures Ring(buf[j := b], out, in_) == Ring(buf, out, in_)
  {
  }

  /** Appending the next chunk of data to its first n bytes gives its first n + |chunk| bytes. */
  lemma PrefixGrows(before: seq<byte>, data: seq<byte>, n: nat, chunk: seq<byte>)
    requires n <= |data| && chunk <= data[n..]
    ensures before + data[..n] + chunk == before + data[..n + |chunk|]
  {
    assert data[..n + |chunk|] == data[..n] + data[n..][..|chunk|];
  }
}
