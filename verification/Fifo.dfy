/** The circular byte buffer of the C stack, with its second read cursor: one slot stays
    free, pointers wrap, every call copies byte by byte. Each call is proved to act on
    the queue of bytes the buffer stands for. */
module Fifo {
  import opened Wire

  // ----- the ring -----

  function After(i: nat, size: nat): nat { if i + 1 == size then 0 else i + 1 }

  /** Steps from `a` forward to `b`. */
  function Distance(a: nat, b: nat, size: nat): nat
    requires a < size && b < size
  {
    if a <= b then b - a else b + size - a
  }

  ghost function Ring(buf: seq<Byte>, from: nat, to: nat): (q: seq<Byte>)
    requires from < |buf| && to < |buf|
    ensures |q| == Distance(from, to, |buf|)
  {
    if from <= to then buf[from..to] else buf[from..] + buf[..to]
  }

  lemma RingPush(buf: seq<Byte>, r: nat, w: nat, b: Byte)
    requires r < |buf| && w < |buf| && After(w, |buf|) != r
    ensures Ring(buf[w := b], r, After(w, |buf|)) == Ring(buf, r, w) + [b]
  {
  }

  lemma RingPop(buf: seq<Byte>, r: nat, w: nat)
    requires r < |buf| && w < |buf| && r != w
    ensures Ring(buf, r, w) == [buf[r]] + Ring(buf, After(r, |buf|), w)
  {
  }

  /** Taking a byte from a ring that holds what is left of `q` after `n` bytes. */
  lemma RingRest(buf: seq<Byte>, r: nat, w: nat, q: seq<Byte>, n: nat)
    requires r < |buf| && w < |buf| && r != w && n <= |q| && Ring(buf, r, w) == q[n..]
    ensures n < |q| && buf[r] == q[n] && Ring(buf, After(r, |buf|), w) == q[n + 1..]
    ensures q[..n + 1] == q[..n] + [q[n]]
  {
    RingPop(buf, r, w);
    assert q[n..][0] == q[n];
    assert Ring(buf, After(r, |buf|), w) == q[n..][1..];
  }

  lemma RingAt(buf: seq<Byte>, r: nat, w: nat, a: nat)
    requires r < |buf| && w < |buf| && a < |buf| && Distance(r, a, |buf|) <= Distance(r, w, |buf|)
    ensures a == w <==> Distance(r, a, |buf|) == Distance(r, w, |buf|)
    ensures a != w ==> buf[a] == Ring(buf, r, w)[Distance(r, a, |buf|)]
    ensures a != w ==> Distance(r, After(a, |buf|), |buf|) == Distance(r, a, |buf|) + 1
  {
  }

  // ----- checksums -----

  /** One step of the checksum; the proofs hold for any. */
  type Checksum = (U16, Byte) -> U16

  function Fold(step: Checksum, crc: U16, data: seq<Byte>): U16 {
    if data == [] then crc else step(Fold(step, crc, data[..|data| - 1]), data[|data| - 1])
  }

  lemma FoldNothing(step: Checksum, crc: U16)
    ensures Fold(step, crc, []) == crc
  {
  }

  lemma FoldStep(step: Checksum, crc: U16, data: seq<Byte>, b: Byte)
    ensures Fold(step, crc, data + [b]) == step(Fold(step, crc, data), b)
  {
    assert (data + [b])[..|data|] == data;
  }

  lemma {:induction false} FoldJoins(step: Checksum, crc: U16, a: seq<Byte>, b: seq<Byte>)
    ensures Fold(step, crc, a + b) == Fold(step, Fold(step, crc, a), b)
    decreases |b|
  {
    if b == [] {
      assert a + b == a;
    } else {
      FoldJoins(step, crc, a, b[..|b| - 1]);
      assert a + b == a + b[..|b| - 1] + [b[|b| - 1]];
      FoldStep(step, crc, a + b[..|b| - 1], b[|b| - 1]);
    }
  }

  // ----- segments -----

  function Flat(parts: seq<seq<Byte>>): seq<Byte> {
    if parts == [] then [] else Flat(parts[..|parts| - 1]) + parts[|parts| - 1]
  }

  lemma FlatStep(parts: seq<seq<Byte>>, p: seq<Byte>)
    ensures Flat(parts + [p]) == Flat(parts) + p
  {
    assert (parts + [p])[..|parts|] == parts;
  }

  // ----- the buffer -----

  class ByteFifo {
    const buf: array<Byte>
    const step: Checksum
    var readPtr: nat
    var writePtr: nat
    var altReadPtr: nat

    ghost predicate Valid()
      reads this
    {
      readPtr < buf.Length && writePtr < buf.Length && altReadPtr < buf.Length
    }

    /** The bytes in the buffer, oldest first. */
    ghost function Contents(): seq<Byte>
      requires Valid()
      reads this, buf
    {
      Ring(buf[..], readPtr, writePtr)
    }

    /** How far the second cursor is ahead of the first. */
    ghost function Ahead(): nat
      requires Valid()
      reads this
    {
      Distance(readPtr, altReadPtr, buf.Length)
    }

    ghost function Capacity(): nat
      requires Valid()
      reads this
    {
      buf.Length - 1
    }

    constructor (size: nat, step: Checksum)
      requires size >= 2
      ensures Valid() && fresh(buf) && buf.Length == size && this.step == step
      ensures Contents() == [] && Ahead() == 0
    {
      buf := new Byte[size](_ => 0);
      this.step := step;
      readPtr, writePtr, altReadPtr := 0, 0, 0;
    }

    method Reset()
      requires Valid()
      modifies this
      ensures Valid() && Contents() == []
    {
      readPtr, writePtr := 0, 0;
    }

    method Occupied() returns (n: nat)
      requires Valid()
      ensures n == |Contents()|
    {
      n := if writePtr < readPtr then writePtr + buf.Length - readPtr else writePtr - readPtr;
    }

    method Space() returns (n: nat)
      requires Valid()
      ensures n == Capacity() - |Contents()|
    {
      n := if readPtr < writePtr + 1 then readPtr + buf.Length - writePtr - 1 else readPtr - writePtr - 1;
    }

    /** Appends as much as fits. */
    method Write(data: seq<Byte>, crc: U16) returns (n: nat, crc': U16)
      requires Valid()
      modifies this`writePtr, buf
      ensures Valid() && n == Least(|data|, Capacity() - |old(Contents())|)
      ensures Contents() == old(Contents()) + data[..n] && crc' == Fold(step, crc, data[..n])
      ensures Ahead() == old(Ahead())
    {
      hide Ring, Fold;
      n, crc' := 0, crc;
      ghost var before := Contents();
      FoldNothing(step, crc);
      assert before == before + data[..0];
      while n < |data|
        invariant Valid() && n <= |data| && |before| + n <= Capacity()
        invariant Contents() == before + data[..n]
        invariant crc' == Fold(step, crc, data[..n])
      {
        var next := writePtr + 1;
        if next == readPtr || (next == buf.Length && readPtr == 0) {
          break;
        }
        RingPush(buf[..], readPtr, writePtr, data[n]);
        FoldStep(step, crc, data[..n], data[n]);
        assert data[..n + 1] == data[..n] + [data[n]];
        buf[writePtr] := data[n];
        crc' := step(crc', data[n]);
        writePtr := if next == buf.Length then 0 else next;
        n := n + 1;
      }
    }

    /** Takes up to `count` bytes from the front. */
    method Read(count: nat) returns (data: seq<Byte>)
      requires Valid()
      modifies this`readPtr
      ensures Valid() && data == old(Contents())[..Least(count, |old(Contents())|)]
      ensures Contents() == old(Contents())[|data|..]
    {
      hide Ring, Fold;
      data := [];
      ghost var before := Contents();
      while |data| < count && readPtr != writePtr
        invariant Valid() && |data| <= count && |data| <= |before|
        invariant data == before[..|data|] && Contents() == before[|data|..]
      {
        RingRest(buf[..], readPtr, writePtr, before, |data|);
        data := data + [buf[readPtr]];
        readPtr := if readPtr + 1 == buf.Length then 0 else readPtr + 1;
      }
    }

    method AltOccupied() returns (n: nat)
      requires Valid() && Ahead() <= |Contents()|
      ensures n == |Contents()| - Ahead()
    {
      n := if writePtr < altReadPtr then writePtr + buf.Length - altReadPtr else writePtr - altReadPtr;
    }

    /** Puts the second cursor `offset` bytes past the first, or at the end. */
    method AltBegin(offset: nat) returns (n: nat)
      requires Valid()
      modifies this`altReadPtr
      ensures Valid() && Contents() == old(Contents()) && Ahead() == n == Least(offset, |Contents()|)
    {
      hide Ring, Fold;
      altReadPtr, n := readPtr, 0;
      while n < offset && altReadPtr != writePtr
        invariant Valid() && n <= offset && Ahead() == n <= |Contents()|
      {
        RingAt(buf[..], readPtr, writePtr, altReadPtr);
        altReadPtr := if altReadPtr + 1 == buf.Length then 0 else altReadPtr + 1;
        n := n + 1;
      }
      RingAt(buf[..], readPtr, writePtr, altReadPtr);
    }

    /** Reads through the second cursor, leaving the bytes in the buffer. */
    method AltRead(count: nat) returns (data: seq<Byte>)
      requires Valid() && Ahead() <= |Contents()|
      modifies this`altReadPtr
      ensures Valid() && Contents() == old(Contents()) && |data| == Least(count, |Contents()| - old(Ahead()))
      ensures data == Contents()[old(Ahead())..old(Ahead()) + |data|] && Ahead() == old(Ahead()) + |data|
    {
      hide Ring, Fold;
      data := [];
      ghost var a0 := Ahead();
      RingAt(buf[..], readPtr, writePtr, altReadPtr);
      while |data| < count && altReadPtr != writePtr
        invariant Valid() && |data| <= count && Ahead() == a0 + |data| <= |Contents()|
        invariant data == Contents()[a0..a0 + |data|]
        invariant altReadPtr == writePtr <==> Ahead() == |Contents()|
      {
        RingAt(buf[..], readPtr, writePtr, altReadPtr);
        data := data + [buf[altReadPtr]];
        altReadPtr := if altReadPtr + 1 == buf.Length then 0 else altReadPtr + 1;
        RingAt(buf[..], readPtr, writePtr, altReadPtr);
      }
    }

    /** Gives up the bytes behind the second cursor, adding them to the checksum. */
    method AltFinish(crc: U16) returns (crc': U16)
      requires Valid() && Ahead() <= |Contents()|
      modifies this`readPtr
      ensures Valid() && Ahead() == 0 && Contents() == old(Contents())[old(Ahead())..]
      ensures crc' == Fold(step, crc, old(Contents())[..old(Ahead())])
    {
      hide Ring, Fold;
      crc' := crc;
      FoldNothing(step, crc);
      ghost var before, a0, n := Contents(), Ahead(), 0;
      while readPtr != altReadPtr
        invariant Valid() && n <= a0 <= |before| && Ahead() == a0 - n
        invariant Contents() == before[n..] && crc' == Fold(step, crc, before[..n])
        decreases a0 - n
      {
        RingAt(buf[..], readPtr, writePtr, altReadPtr);
        RingRest(buf[..], readPtr, writePtr, before, n);
        FoldStep(step, crc, before[..n], before[n]);
        crc' := step(crc', buf[readPtr]);
        readPtr := if readPtr + 1 == buf.Length then 0 else readPtr + 1;
        n := n + 1;
      }
    }
  }
}
