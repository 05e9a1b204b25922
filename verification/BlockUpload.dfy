/** The block upload of the C client: numbered segments go straight into the buffer, so
    the block size offered to the server must never promise more than there is room for. */
module BlockUpload {
  import opened Wire
  import opened Fifo

  /** Data not longer than this the server may send the regular way. */
  const SWITCH_THRESHOLD: Byte := 21

  datatype State = InitiateReq | InitiateRsp | InitiateReq2 | Regular | SubblockSreq | SubblockCrsp
                 | EndSreq | EndCrsp | Idle | Aborted

  /** What the client answers at the end of a sub-block. */
  datatype Answer = Ack(frame: Payload) | BufferFull | TooLong

  /** Body `d` of a segment is the one the server's `source` has at byte `at`: seven bytes,
      or on the last segment what is left and padding. */
  ghost predicate Carries(source: seq<Byte>, at: nat, d: Payload) {
    && at <= |source|
    && if d[0] < 0x80 then at + 7 <= |source| && d[1..] == source[at..at + 7]
       else |source| <= at + 7 && d[1..1 + |source| - at] == source[at..]
  }

  /** The segment is the next one after number `seqno`. */
  predicate Accepts(seqno: nat, d: Payload) { d[0] % 0x80 == seqno + 1 }

  /** What is accepted is the beginning of the source, and a last segment held is its end. */
  ghost predicate Follows(source: seq<Byte>, accepted: seq<Byte>, finished: bool, last: seq<Byte>) {
    && accepted <= source
    && (finished ==> |source| - |accepted| <= |last| == 7 && last[..|source| - |accepted|] == source[|accepted|..])
  }

  lemma FollowsOn(source: seq<Byte>, accepted: seq<Byte>, last: seq<Byte>, d: Payload)
    requires Follows(source, accepted, false, last) && Carries(source, |accepted|, d)
    ensures if d[0] < 0x80 then Follows(source, accepted + d[1..], false, last)
            else Follows(source, accepted, true, d[1..])
  {
    if d[0] >= 0x80 {
      assert d[1..][..|source| - |accepted|] == d[1..1 + |source| - |accepted|];
    }
  }

  /** With its padding off, the last segment completes the source; any other length does not. */
  lemma FollowsToTheEnd(source: seq<Byte>, accepted: seq<Byte>, last: seq<Byte>, n: nat)
    requires Follows(source, accepted, true, last) && n <= 7
    ensures accepted + last[..n] == source <==> |accepted| + n == |source|
  {
    if |accepted| + n == |source| {
      PrefixAndRest(source, accepted, last[..n]);
    }
  }

  lemma PrefixAndRest(whole: seq<Byte>, prefix: seq<Byte>, rest: seq<Byte>)
    requires prefix <= whole && rest == whole[|prefix|..]
    ensures prefix + rest == whole
  {
  }

  lemma ContinuesNothing(base: seq<Byte>)
    ensures base + Flat([]) == base
  {
    assert base + [] == base;
  }

  lemma CountsOn(base: seq<Byte>, parts: seq<seq<Byte>>, d: Payload)
    ensures base + Flat(parts) + d[1..] == base + Flat(parts + [d[1..]]) && d[1..][..7] == d[1..]
  {
    FlatStep(parts, d[1..]);
    assert base + Flat(parts) + d[1..] == base + (Flat(parts) + d[1..]);
  }

  lemma Regroup(a: seq<Byte>, b: seq<Byte>, n: nat)
    requires n <= |b|
    ensures a + b == a + b[..n] + b[n..]
  {
  }

  class Receiver {
    const fifo: ByteFifo
    const index: U16
    const subIndex: Byte
    var state: State
    var sizeInd: nat
    var sizeTran: nat
    var finished: bool
    var seqno: nat
    var blksize: nat
    var crcEnabled: bool
    var crc: U16
    var last: seq<Byte>

    /** Bytes accepted for good, and those of them the application has fetched. */
    ghost var accepted: seq<Byte>
    ghost var taken: seq<Byte>
    /** What was accepted when the sub-block began, and its segments since. */
    ghost var base: seq<Byte>
    ghost var parts: seq<seq<Byte>>
    /** What the server has to send, and whether every segment accepted so far was its own
        under its number. */
    ghost const source: seq<Byte>
    ghost var loyal: bool

    ghost function Room(): nat
      requires fifo.Valid()
      reads this, fifo, fifo.buf
    {
      fifo.Capacity() - |fifo.Contents()|
    }

    /** Every accepted byte is with the application or in the buffer, in order, once. */
    ghost predicate Conserved()
      reads this, fifo, fifo.buf
    {
      && fifo.Valid() && taken + fifo.Contents() == accepted && sizeTran == |accepted|
      && crc == Fold(fifo.step, 0, accepted)
    }

    /** The room promise: what the sub-block may still bring fits. */
    ghost predicate Promise()
      requires fifo.Valid()
      reads this, fifo, fifo.buf
    {
      && fifo.Capacity() >= 7 && 1 <= blksize <= 127
      && match state
         case SubblockSreq => !finished && seqno < blksize && Room() >= 7 * (blksize - seqno)
         case SubblockCrsp => seqno <= blksize && (finished ==> Room() >= 7)
         case EndSreq => finished && Room() >= 7
         case _ => Room() >= 7 * blksize && !finished
    }

    /** The sequence number counts the segments accepted since the sub-block began. */
    ghost predicate Counted()
      reads this
    {
      && accepted == base + Flat(parts) && seqno == |parts| + (if finished then 1 else 0)
      && |accepted| == |base| + 7 * |parts| && (finished ==> |last| == 7)
    }

    ghost predicate Valid()
      reads this, fifo, fifo.buf
    {
      && fifo.Valid() && (state !in {Regular, Aborted} ==> Conserved())
      && (state in {InitiateRsp, InitiateReq2, SubblockSreq, SubblockCrsp, EndSreq} ==> Promise())
      && (state in {SubblockSreq, SubblockCrsp} ==> Counted())
      && (state in {InitiateReq, InitiateRsp, InitiateReq2} ==> accepted == [])
      && (state in {InitiateReq, InitiateRsp} ==> sizeInd == 0)
      && (state == InitiateReq ==> !finished)
      && (state == EndSreq ==> |last| == 7)
      && (loyal && state !in {EndCrsp, Idle, Regular, Aborted} ==> Follows(source, accepted, finished, last))
      && (state in {EndCrsp, Idle} && sizeInd > 0 ==> |accepted| == sizeInd)
    }

    constructor (fifo: ByteFifo, index: U16, subIndex: Byte, ghost source: seq<Byte>)
      requires fifo.Valid()
      modifies fifo
      ensures this.fifo == fifo && fifo.Valid() && fifo.Contents() == [] && state == InitiateReq && accepted == []
      ensures Valid() && this.index == index && this.subIndex == subIndex && this.source == source && loyal
    {
      this.fifo, this.index, this.subIndex, this.source, loyal := fifo, index, subIndex, source, true;
      state, sizeInd, sizeTran, finished, seqno, blksize := InitiateReq, 0, 0, false, 0, 0;
      crcEnabled, crc, last := false, 0, [];
      accepted, taken, base, parts := [], [], [], [];
      new;
      fifo.Reset();
    }

    /** Asks for the object, offering as many segments as there is room for. */
    method SendInitiate() returns (frame: Option<Payload>)
      requires Valid() && state == InitiateReq
      modifies this`state, this`blksize
      ensures Valid() && state == (if fifo.Capacity() < 7 then Aborted else InitiateRsp)
      ensures state == InitiateRsp ==> 1 <= blksize == Least(127, fifo.Capacity() / 7)
      ensures frame.Some? <==> state == InitiateRsp
      ensures frame.Some? ==>
        && frame.value[0] == 0xA4
        && IndexOf(frame.value) == index
        && SubOf(frame.value) == subIndex
        && frame.value[4..] == [blksize, 21, 0, 0]
    {
      hide Fold, ByteFifo.Contents, Flat;
      var space := fifo.Space();
      var count := space / 7;
      if count > 127 {
        count := 127;
      } else if count == 0 {
        state := Aborted;
        return None;
      }
      blksize, state := count, InitiateRsp;
      frame := Some([0xA4, Low(index), High(index), subIndex, blksize, SWITCH_THRESHOLD, 0, 0]);
    }

    /** The server agrees to a block upload, falls back to a regular one, or errs. */
    method OnInitiateRsp(rx: Payload)
      requires Valid() && state == InitiateRsp
      modifies this`state, this`crcEnabled, this`sizeInd
      ensures Valid() && state in {InitiateReq2, Regular, Aborted}
      ensures state == InitiateReq2 <==>
        rx[0] in {0xC0, 0xC2, 0xC4, 0xC6} && IndexOf(rx) == index && SubOf(rx) == subIndex
      ensures state == Regular <==> 0x40 <= rx[0] <= 0x4F && IndexOf(rx) == index && SubOf(rx) == subIndex
      ensures state == InitiateReq2 ==>
        && crcEnabled == (rx[0] in {0xC4, 0xC6}) && sizeInd == (if rx[0] in {0xC2, 0xC6} then SizeOf(rx) else 0)
    {
      hide Fold, ByteFifo.Contents, Flat, IndexOf, SubOf, SizeOf;
      if rx[0] / 8 == 0x18 && rx[0] % 2 == 0 {
        crcEnabled := rx[0] / 4 % 2 == 1;
        if rx[0] / 2 % 2 == 1 {
          sizeInd := SizeOf(rx);
        }
        state := if IndexOf(rx) != index || SubOf(rx) != subIndex then Aborted else InitiateReq2;
      } else if rx[0] / 16 == 4 {
        state := if IndexOf(rx) != index || SubOf(rx) != subIndex then Aborted else Regular;
      } else {
        state := Aborted;
      }
    }

    /** Tells the server to start the first sub-block. */
    method SendStart() returns (frame: Payload)
      requires Valid() && state == InitiateReq2
      modifies this`state, this`seqno, this`crc, this`base, this`parts
      ensures frame == [0xA3, 0, 0, 0, 0, 0, 0, 0]
      ensures Valid() && state == SubblockSreq && parts == [] && base == accepted
    {
      seqno, crc, base, parts := 0, 0, accepted, [];
      FoldNothing(fifo.step, 0);
      state := SubblockSreq;
      frame := [0xA3, 0, 0, 0, 0, 0, 0, 0];
    }

    /** A segment arrives. It is accepted if and only if it is the next one of the
        sub-block, and then all of it: the buffer never cuts a segment short. The abort of the
        server ends the transfer. */
    method Receive(rx: Payload)
      requires Valid() && state == SubblockSreq
      modifies this`state, this`seqno, this`finished, this`last, this`sizeTran, this`crc, this`accepted, this`parts,
        this`loyal, fifo`writePtr, fifo.buf
      ensures Valid() && state in {SubblockSreq, SubblockCrsp, Aborted} && (state == Aborted <==> rx[0] == 0x80)
      ensures Accepts(old(seqno), rx) && rx[0] < 0x80 ==>
        accepted == old(accepted) + rx[1..] && parts == old(parts) + [rx[1..]] && !finished
      ensures Accepts(old(seqno), rx) && rx[0] >= 0x80 ==>
        accepted == old(accepted) && parts == old(parts) && finished && last == rx[1..]
      ensures !Accepts(old(seqno), rx) ==>
        accepted == old(accepted) && parts == old(parts) && seqno == old(seqno) && !finished
      ensures state == SubblockCrsp <==>
        || finished || seqno == blksize
        || (old(seqno) != 0 && rx[0] != 0x80 && rx[0] % 0x80 != old(seqno) && rx[0] % 0x80 != old(seqno) + 1)
      ensures loyal <==> old(loyal) && (Accepts(old(seqno), rx) ==> Carries(source, |base| + 7 * old(seqno), rx))
    {
      hide Fold, ByteFifo.Contents, Flat, Follows, Carries;
      if rx[0] == 0x80 {
        state := Aborted;
        return;
      }
      var n := rx[0] % 0x80;
      if n <= blksize && n == seqno + 1 {
        if rx[0] >= 0x80 {
          Hold(rx);
        } else {
          Append(rx);
        }
      } else if n != seqno && seqno != 0 {
        state := SubblockCrsp;
      }
    }

    /** Puts the last segment aside: how much of it is padding is not known yet. */
    method Hold(rx: Payload)
      requires Valid() && state == SubblockSreq && rx[0] % 0x80 == seqno + 1 <= blksize && rx[0] >= 0x80
      modifies this`state, this`seqno, this`finished, this`last, this`loyal
      ensures Valid() && seqno == old(seqno) + 1 && finished && last == rx[1..] && state == SubblockCrsp
      ensures loyal <==> old(loyal) && Carries(source, |base| + 7 * old(seqno), rx)
    {
      hide Fold, ByteFifo.Contents, Flat, Follows, Carries;
      Follow(rx);
      seqno, last, finished, state := seqno + 1, rx[1..], true, SubblockCrsp;
    }

    /** Is the segment the server's own? */
    ghost method Follow(rx: Payload)
      requires Counted() && (loyal ==> Follows(source, accepted, finished, last)) && !finished
      modifies this`loyal
      ensures loyal <==> old(loyal) && Carries(source, |base| + 7 * seqno, rx)
      ensures loyal ==>
        if rx[0] < 0x80 then Follows(source, accepted + rx[1..], false, last)
        else Follows(source, accepted, true, rx[1..])
    {
      hide Flat, Follows, Carries;
      loyal := loyal && Carries(source, |accepted|, rx);
      if loyal {
        FollowsOn(source, accepted, last, rx);
      }
    }

    /** Takes a segment into the buffer. */
    method Append(rx: Payload)
      requires Valid() && state == SubblockSreq && rx[0] % 0x80 == seqno + 1 <= blksize && rx[0] < 0x80
      modifies this`state, this`seqno, this`sizeTran, this`crc, this`accepted, this`parts, this`loyal, fifo`writePtr,
        fifo.buf
      ensures Valid() && seqno == old(seqno) + 1 && accepted == old(accepted) + rx[1..]
      ensures parts == old(parts) + [rx[1..]]
      ensures state == if seqno == blksize then SubblockCrsp else SubblockSreq
      ensures loyal <==> old(loyal) && Carries(source, |base| + 7 * old(seqno), rx)
    {
      hide Fold, ByteFifo.Contents, Flat, Follows, Carries;
      Follow(rx);
      Enter(rx);
      if seqno == blksize {
        state := SubblockCrsp;
      }
    }

    method Enter(rx: Payload)
      requires Conserved() && Counted() && !finished && Room() >= 7
      modifies this`seqno, this`sizeTran, this`crc, this`accepted, this`parts, fifo`writePtr, fifo.buf
      ensures Conserved() && Counted() && Room() == old(Room()) - 7
      ensures seqno == old(seqno) + 1 && accepted == old(accepted) + rx[1..] && parts == old(parts) + [rx[1..]]
    {
      hide Fold, ByteFifo.Contents, Flat;
      CountsOn(base, parts, rx);
      Store(rx[1..], 7);
      parts, seqno := parts + [rx[1..]], seqno + 1;
    }

    /** Puts the first `count` bytes into the buffer, where they fit. */
    method Store(data: seq<Byte>, count: nat)
      requires Conserved() && count <= |data| && count <= Room()
      modifies this`sizeTran, this`crc, this`accepted, fifo`writePtr, fifo.buf
      ensures Conserved() && accepted == old(accepted) + data[..count] && Room() == old(Room()) - count
    {
      hide Fold, ByteFifo.Contents, Flat;
      FoldJoins(fifo.step, 0, accepted, data[..count]);
      assert data[..count][..count] == data[..count];
      var written, c := fifo.Write(data[..count], crc);
      assert written == count;
      assert taken + (old(fifo.Contents()) + data[..count]) == accepted + data[..count];
      crc, sizeTran, accepted := c, sizeTran + count, accepted + data[..count];
    }

    /** Nothing came for too long: the sub-block ends with what there is. */
    method SubblockTimeout()
      requires Valid() && state == SubblockSreq
      modifies this`state
      ensures Valid() && state == SubblockCrsp
    {
      state := SubblockCrsp;
    }

    /** Ends the sub-block: acknowledges exactly the segments accepted in it, and offers
        a next block size that the free buffer can hold. */
    method SendAck() returns (answer: Answer)
      requires Valid() && state == SubblockCrsp
      modifies this`state, this`blksize, this`seqno, this`base, this`parts
      ensures Valid() && (answer.Ack? <==> state in {EndSreq, SubblockSreq})
      ensures answer.Ack? ==>
        && answer.frame == [0xA2, |old(parts)| + (if finished then 1 else 0), blksize, 0, 0, 0, 0, 0]
        && 1 <= blksize <= 127
        && state == (if finished then EndSreq else SubblockSreq)
      ensures state == SubblockSreq ==>
        base == accepted && parts == [] && blksize == Least(127, Room() / 7)
      ensures answer == BufferFull ==>
        state == SubblockCrsp && seqno == old(seqno) && parts == old(parts) && base == old(base)
      ensures answer == TooLong <==> state == Aborted
      ensures answer == TooLong <==> !finished && sizeInd > 0 && sizeTran > sizeInd
      ensures answer == BufferFull <==> !finished && answer != TooLong && fifo.Contents() != [] && Room() < 7 * 127
    {
      hide Fold, ByteFifo.Contents, Flat;
      var ack := seqno;
      if finished {
        state := EndSreq;
      } else {
        if sizeInd > 0 && sizeTran > sizeInd {
          state := Aborted;
          return TooLong;
        }
        var count := RoomFor();
        if count.None? {
          return BufferFull;
        }
        NextSubblock(count.value);
      }
      answer := Ack([0xA2, ack, blksize, 0, 0, 0, 0, 0]);
    }

    method NextSubblock(count: nat)
      requires Conserved() && !finished && fifo.Capacity() >= 7 && 1 <= count <= 127 && 7 * count <= Room()
      requires loyal ==> Follows(source, accepted, false, last)
      modifies this`state, this`blksize, this`seqno, this`base, this`parts
      ensures Valid() && state == SubblockSreq && base == accepted && parts == [] && blksize == count
    {
      hide Fold, ByteFifo.Contents, Flat;
      blksize, seqno := count, 0;
      base, parts := accepted, [];
      ContinuesNothing(accepted);
      state := SubblockSreq;
    }

    /** The next block size: 127 where they fit, otherwise what an emptied buffer holds. */
    method RoomFor() returns (count: Option<nat>)
      requires fifo.Valid() && fifo.Capacity() >= 7
      ensures count.Some? ==> 1 <= count.value == Least(127, Room() / 7)
      ensures count.None? <==> fifo.Contents() != [] && Room() < 7 * 127
    {
      var space := fifo.Space();
      if space / 7 >= 127 {
        return Some(127);
      }
      var occupied := fifo.Occupied();
      count := if occupied > 0 then None else Some(space / 7);
    }

    /** The server ends the transfer: the held segment loses its padding and is stored;
        length and checksum must agree. */
    method OnEnd(rx: Payload)
      requires Valid() && state == EndSreq
      modifies this`state, this`sizeTran, this`crc, this`accepted, fifo`writePtr, fifo.buf
      ensures Valid() && state in {EndCrsp, Aborted}
      ensures state == EndCrsp <==>
        && rx[0] / 32 == 6 && rx[0] % 4 == 1
        && var whole := old(accepted) + last[..7 - rx[0] / 4 % 8];
           && (sizeInd > 0 ==> |whole| == sizeInd)
           && (crcEnabled ==> Fold(fifo.step, 0, whole) == 0x100 * (rx[2] as int) + rx[1])
      ensures state == EndCrsp ==> accepted == old(accepted) + last[..7 - rx[0] / 4 % 8]
      ensures state == EndCrsp && loyal ==> (accepted == source <==> |accepted| == |source|)
      ensures state == EndCrsp && loyal && sizeInd == |source| > 0 ==> accepted == source
    {
      hide Fold, ByteFifo.Contents, Flat, Follows;
      if loyal {
        FollowsToTheEnd(source, accepted, last, 7 - rx[0] / 4 % 8);
      }
      if rx[0] / 32 == 6 && rx[0] % 4 == 1 {
        var noData := rx[0] / 4 % 8;
        Store(last, 7 - noData);
        if sizeInd > 0 && sizeTran != sizeInd {
          state := Aborted;
        } else if crcEnabled && 0x100 * (rx[2] as int) + rx[1] != crc {
          state := Aborted;
        } else {
          state := EndCrsp;
        }
      } else {
        state := Aborted;
      }
    }

    /** Confirms the end. */
    method SendEnd() returns (frame: Payload)
      requires Valid() && state == EndCrsp
      modifies this`state
      ensures frame == [0xA1, 0, 0, 0, 0, 0, 0, 0]
      ensures Valid() && state == Idle && taken + fifo.Contents() == accepted
    {
      state := Idle;
      frame := [0xA1, 0, 0, 0, 0, 0, 0, 0];
    }

    /** The application fetches bytes, at any time. */
    method BufRead(count: nat) returns (data: seq<Byte>)
      requires Valid()
      modifies this`taken, fifo`readPtr
      ensures Valid() && taken == old(taken) + data && data <= old(fifo.Contents())
      ensures |data| == Least(count, |old(fifo.Contents())|)
    {
      hide Fold, ByteFifo.Contents, ByteFifo.Capacity, Flat, Conserved;
      data := Fetch(count);
    }

    method Fetch(count: nat) returns (data: seq<Byte>)
      requires fifo.Valid()
      modifies this`taken, fifo`readPtr
      ensures fifo.Valid() && taken == old(taken) + data && data <= old(fifo.Contents())
      ensures |data| == Least(count, |old(fifo.Contents())|) && Room() >= old(Room())
      ensures fifo.Capacity() == old(fifo.Capacity())
      ensures old(Conserved()) ==> Conserved()
    {
      hide Fold, ByteFifo.Contents, Flat;
      ghost var before := fifo.Contents();
      data := fifo.Read(count);
      Regroup(taken, before, |data|);
      taken := taken + data;
    }
  }
}
