/** Access to the object dictionary of the C stack: a variable is read or written in
    chunks through a stream that remembers its offset, and an entry is found by bisection. */
module OdAccess {
  import opened Wire
  import opened Fifo

  datatype Code = Done | Partial | SubNotExist | DevIncompat | DataLong

  // ----- the stream on values -----

  /** A variable with the offset its stream has reached. */
  datatype Cell = Cell(data: seq<Byte>, offset: nat)

  ghost predicate Good(c: Cell) { c.offset == 0 || c.offset < |c.data| }

  function Reading(c: Cell, count: nat): (Cell, Code, seq<Byte>) {
    if c.offset == 0 && |c.data| <= count then (c, Done, c.data)
    else if c.offset >= |c.data| then (c, DevIncompat, [])
    else if |c.data| - c.offset > count then (Cell(c.data, c.offset + count), Partial,
      c.data[c.offset..c.offset + count])
    else (Cell(c.data, 0), Done, c.data[c.offset..])
  }

  function Writing(c: Cell, chunk: seq<Byte>): (Cell, Code, nat) {
    if c.offset == 0 && |c.data| <= |chunk| then
      if |c.data| < |chunk| then (c, DataLong, 0) else (Cell(chunk, 0), Done, |chunk|)
    else if c.offset >= |c.data| then (c, DevIncompat, 0)
    else if |c.data| - c.offset > |chunk| then
      (Cell(c.data[..c.offset] + chunk + c.data[c.offset + |chunk|..], c.offset + |chunk|), Partial, |chunk|)
    else if |c.data| - c.offset < |chunk| then (Cell(c.data, 0), DataLong, 0)
    else (Cell(c.data[..c.offset] + chunk, 0), Done, |chunk|)
  }

  /** From a good offset reading stays good, never refuses, and leaves the variable alone;
      it is done exactly when the buffer reaches the end of the variable. */
  lemma ReadingStaysGood(c: Cell, count: nat)
    requires Good(c)
    ensures var r := Reading(c, count);
            && Good(r.0) && r.1 in {Done, Partial} && r.0.data == c.data
            && (r.1 == Done <==> c.offset + count >= |c.data|)
            && (r.1 == Done ==> r.0.offset == 0 && r.2 == c.data[c.offset..])
            && (r.1 == Partial ==> r.0.offset == c.offset + count && r.2 == c.data[c.offset..c.offset + count])
  {
  }

  /** Writing stays good too and keeps the length; it is done exactly when the chunk ends
      with the variable. A chunk that is too long writes none of its bytes, and sends the
      stream back to the start. */
  lemma WritingStaysGood(c: Cell, chunk: seq<Byte>)
    requires Good(c)
    ensures var w := Writing(c, chunk);
            && Good(w.0) && w.1 in {Done, Partial, DataLong} && |w.0.data| == |c.data|
            && (w.1 == DataLong <==> c.offset + |chunk| > |c.data|)
            && (w.1 == Done <==> c.offset + |chunk| == |c.data|)
            && (w.1 == DataLong ==> w.0 == Cell(c.data, 0) && w.2 == 0)
            && (w.1 != DataLong ==> w.2 == |chunk|)
            && (w.1 == Done ==> w.0 == Cell(c.data[..c.offset] + chunk, 0))
            && (w.1 == Partial ==> w.0.offset == c.offset + |chunk|)
            && (w.1 == Partial ==> w.0.data[..w.0.offset] == c.data[..c.offset] + chunk)
            && (w.1 == Partial ==> w.0.data[w.0.offset..] == c.data[w.0.offset..])
  {
  }

  /** Writes the chunks one after another; false once one was refused. */
  ghost function WriteAll(c: Cell, chunks: seq<seq<Byte>>): (Cell, bool) {
    if chunks == [] then (c, true)
    else
      var (before, fine) := WriteAll(c, chunks[..|chunks| - 1]);
      var (w, code, _) := Writing(before, chunks[|chunks| - 1]);
      (w, fine && code in {Done, Partial})
  }

  /** Reads in pieces of the given sizes, joining what comes. */
  ghost function ReadAll(c: Cell, counts: seq<nat>): (Cell, seq<Byte>) {
    if counts == [] then (c, [])
    else
      var (before, got) := ReadAll(c, counts[..|counts| - 1]);
      var (r, _, bytes) := Reading(before, counts[|counts| - 1]);
      (r, got + bytes)
  }

  function Sum(counts: seq<nat>): nat {
    if counts == [] then 0 else Sum(counts[..|counts| - 1]) + counts[|counts| - 1]
  }

  /** Chunks that together stay within the variable land one behind the other. */
  lemma {:induction false} WritesLand(c: Cell, chunks: seq<seq<Byte>>)
    requires c.offset == 0 && (forall s <- chunks :: s != []) && |Flat(chunks)| <= |c.data|
    ensures |Flat(chunks)| < |c.data| ==>
      WriteAll(c, chunks) == (Cell(Flat(chunks) + c.data[|Flat(chunks)|..], |Flat(chunks)|), true)
    ensures |Flat(chunks)| == |c.data| ==> WriteAll(c, chunks) == (Cell(Flat(chunks), 0), true)
    decreases |chunks|
  {
    if chunks == [] {
      assert [] + c.data[0..] == c.data;
    } else {
      var front, chunk := chunks[..|chunks| - 1], chunks[|chunks| - 1];
      assert forall s <- front :: s in chunks;
      assert chunk in chunks;
      WritesLand(c, front);
      var t := |Flat(front)|;
      var before := Cell(Flat(front) + c.data[t..], t);
      assert WriteAll(c, front) == (before, true);
      assert before.data[..t] == Flat(front);
      assert before.data[t + |chunk|..] == c.data[t + |chunk|..];
      assert Flat(chunks) == Flat(front) + chunk;
      assert t == 0 ==> Flat(chunks) == chunk;
    }
  }

  lemma {:induction false} ReadsFollow(c: Cell, counts: seq<nat>)
    requires c.offset == 0 && Sum(counts) < |c.data|
    ensures ReadAll(c, counts) == (Cell(c.data, Sum(counts)), c.data[..Sum(counts)])
    decreases |counts|
  {
    if counts != [] {
      var front, count := counts[..|counts| - 1], counts[|counts| - 1];
      ReadsFollow(c, front);
      var t := Sum(front);
      assert c.data[..t] + c.data[t..t + count] == c.data[..t + count];
    }
  }

  /** Any cutting of the value on the way in, and any on the way out, gives it back whole,
      and the stream ends ready for the next access. */
  lemma ChunkedRoundTrip(c: Cell, chunks: seq<seq<Byte>>, counts: seq<nat>, rest: nat)
    requires c.offset == 0 && (forall s <- chunks :: s != []) && |Flat(chunks)| == |c.data|
    requires Sum(counts) < |c.data| <= Sum(counts) + rest
    ensures WriteAll(c, chunks) == (Cell(Flat(chunks), 0), true)
    ensures ReadAll(WriteAll(c, chunks).0, counts + [rest]) == (Cell(Flat(chunks), 0), Flat(chunks))
  {
    hide Flat, WriteAll, Writing;
    WritesLand(c, chunks);
    var w, value := WriteAll(c, chunks).0, Flat(chunks);
    ReadsFollow(w, counts);
    assert (counts + [rest])[..|counts|] == counts;
    assert value[..Sum(counts)] + value[Sum(counts)..] == value;
  }

  /** A chunk that is too long is refused whole, but the chunks before it have already
      changed the variable, unless they wrote what it held: a write in chunks is not atomic
      here. */
  lemma OverlongKeepsThePrefix(c: Cell, chunks: seq<seq<Byte>>, tooLong: seq<Byte>)
    requires c.offset == 0 && (forall s <- chunks :: s != []) && |Flat(chunks)| < |c.data|
    requires |Flat(chunks)| + |tooLong| > |c.data|
    ensures WriteAll(c, chunks + [tooLong]) == (Cell(Flat(chunks) + c.data[|Flat(chunks)|..], 0), false)
    ensures WriteAll(c, chunks + [tooLong]).0.data == c.data <==> Flat(chunks) <= c.data
  {
    WritesLand(c, chunks);
    assert (chunks + [tooLong])[..|chunks|] == chunks;
  }

  // ----- the stream in memory -----

  class Stream {
    const dataOrig: array?<Byte>
    var dataOffset: nat

    ghost function View(): Cell
      requires dataOrig != null
      reads this, dataOrig
    {
      Cell(dataOrig[..], dataOffset)
    }

    constructor (dataOrig: array?<Byte>)
      ensures this.dataOrig == dataOrig && dataOffset == 0
    {
      this.dataOrig, dataOffset := dataOrig, 0;
    }

    method Read(count: nat) returns (code: Code, bytes: seq<Byte>)
      modifies this
      ensures dataOrig == null ==> code == SubNotExist && bytes == [] && dataOffset == old(dataOffset)
      ensures dataOrig != null ==> (View(), code, bytes) == Reading(old(View()), count)
    {
      if dataOrig == null {
        return SubNotExist, [];
      }
      var toCopy, from := dataOrig.Length, 0;
      code := Done;
      if dataOffset > 0 || toCopy > count {
        if dataOffset >= toCopy {
          return DevIncompat, [];
        }
        toCopy, from := toCopy - dataOffset, dataOffset;
        if toCopy > count {
          toCopy := count;
          dataOffset := dataOffset + toCopy;
          code := Partial;
        } else {
          dataOffset := 0;
        }
      }
      bytes := dataOrig[from..from + toCopy];
      assert from + toCopy == dataOrig.Length ==> bytes == dataOrig[..][from..];
      assert bytes == dataOrig[..][from..from + toCopy];
    }

    method Write(buf: seq<Byte>) returns (code: Code, written: nat)
      modifies this, if dataOrig == null then {} else {dataOrig}
      ensures dataOrig == null ==> code == SubNotExist && written == 0 && dataOffset == old(dataOffset)
      ensures dataOrig != null ==> (View(), code, written) == Writing(old(View()), buf)
    {
      if dataOrig == null {
        return SubNotExist, 0;
      }
      var toCopy, to := dataOrig.Length, 0;
      code := Done;
      if dataOffset > 0 || toCopy > |buf| {
        if dataOffset >= toCopy {
          return DevIncompat, 0;
        }
        toCopy, to := toCopy - dataOffset, dataOffset;
        if toCopy > |buf| {
          toCopy := |buf|;
          dataOffset := dataOffset + toCopy;
          code := Partial;
        } else {
          dataOffset := 0;
        }
      }
      if toCopy < |buf| {
        return DataLong, 0;
      }
      forall i | 0 <= i < toCopy {
        dataOrig[to + i] := buf[i];
      }
      written := toCopy;
      assert dataOrig[..] == old(dataOrig[..])[..to] + buf + old(dataOrig[..])[to + toCopy..];
      assert to + toCopy == dataOrig.Length ==> dataOrig[..] == old(dataOrig[..])[..to] + buf;
      assert to == 0 && toCopy == dataOrig.Length ==> dataOrig[..] == buf;
    }
  }

  // ----- bisection -----

  function Pow2(k: nat): nat { if k == 0 then 1 else 2 * Pow2(k - 1) }

  /** The logarithm to the base two, rounded down. */
  function Log2(n: nat): nat { if n < 2 then 0 else 1 + Log2(n / 2) }

  lemma {:induction false} Log2IsTheLogarithm(n: nat)
    requires n >= 1
    ensures Pow2(Log2(n)) <= n < 2 * Pow2(Log2(n))
  {
    if n >= 2 {
      Log2IsTheLogarithm(n / 2);
    }
  }

  lemma {:induction false} Log2Grows(a: nat, b: nat)
    requires a <= b
    ensures Log2(a) <= Log2(b)
  {
    if a >= 2 {
      Log2Grows(a / 2, b / 2);
    }
  }

  ghost predicate Sorted(list: seq<U16>) { forall i, j :: 0 <= i < j < |list| ==> list[i] < list[j] }

  /** Finds an entry by index. What it returns is right on any list; on a sorted one it
      finds the entry exactly when there is one. Each pass uses up one of log2 of the size. */
  method Find(list: seq<U16>, index: U16) returns (at: Option<nat>, passes: nat)
    requires |list| <= 0xFFFF
    ensures at.Some? ==> at.value < |list| && list[at.value] == index
    ensures Sorted(list) ==> (at.None? <==> index !in list)
    ensures passes <= Log2(|list|)
  {
    at, passes := None, 0;
    if |list| == 0 {
      return;
    }
    var min, max := 0, |list| - 1;
    while min < max
      invariant 0 <= min <= max + 1 <= |list| && min < |list|
      invariant Sorted(list) ==> forall i :: 0 <= i < |list| && list[i] == index ==> min <= i <= max
      invariant passes + Log2(max + 1 - min) <= Log2(|list|)
      decreases Log2(|list|) - passes
    {
      var cur := (min + max) / 2;
      ghost var width := max + 1 - min;
      if index == list[cur] {
        return Some(cur), passes + 1;
      }
      if index < list[cur] {
        max := if cur > 0 then cur - 1 else cur;
      } else {
        min := cur + 1;
      }
      Log2Grows(max + 1 - min, width / 2);
      passes := passes + 1;
    }
    if min == max {
      if index == list[min] {
        at := Some(min);
      }
    }
  }
}
