/** The block download of the C client: sub-blocks of numbered segments, acknowledged
    together, with go-back to the first segment the server did not get. */
module BlockDownload {
  import opened Wire
  import opened Fifo

  /** Shorter data than this are not worth a block transfer. */
  const SWITCH_THRESHOLD: nat := 21

  datatype State = InitiateReq | Regular | InitiateRsp | SubblockReq | SubblockRsp | EndReq | EndRsp | Idle | Aborted

  /** First byte of a segment: its number, with the top bit set on the last one. */
  function Header(seqno: Byte, last: bool): Byte { if last && seqno < 128 then seqno + 128 else seqno }

  predicate ReadsBack(header: Byte, seqno: nat, last: bool) { header % 128 == seqno && (header >= 128 <==> last) }

  /** The receiver can read number and mark back exactly when the number is at most 127. */
  lemma HeaderReadsBack(seqno: Byte, last: bool)
    ensures ReadsBack(Header(seqno, last), seqno, last) <==> seqno <= 127
  {
  }

  /** All segments but the last are full. */
  ghost predicate FullBut(parts: seq<seq<Byte>>) {
    forall i :: 0 <= i < |parts| - 1 ==> |parts[i]| == 7
  }

  lemma {:induction false} FlatPrefix(parts: seq<seq<Byte>>, k: nat)
    requires FullBut(parts) && k <= |parts|
    ensures Flat(parts[..k]) <= Flat(parts)
    ensures k < |parts| ==> |Flat(parts[..k])| == 7 * k
    decreases |parts|
  {
    if k == |parts| {
      assert parts[..k] == parts;
    } else {
      FlatPrefix(parts[..|parts| - 1], k);
      assert parts[..|parts| - 1][..k] == parts[..k];
      if k == |parts| - 1 && k > 0 {
        FlatPrefix(parts[..k], k - 1);
        assert parts[..k][..k - 1] == parts[..k - 1];
      }
    }
  }

  /** Where a sub-block stands: `flight` is what follows the acknowledged bytes in the
      stream, in full segments but for the last, which misses `noData` bytes. */
  ghost predicate Aligned(stream: seq<Byte>, delivered: seq<Byte>, segments: nat, flight: seq<seq<Byte>>,
                          noData: nat, ahead: nat, sizeTran: nat)
  {
    && |delivered| == 7 * segments && FullBut(flight) && ahead == |Flat(flight)|
    && delivered + Flat(flight) <= stream && sizeTran == |delivered| + ahead
    && (flight != [] ==> |flight[|flight| - 1]| + noData == 7)
  }

  lemma AlignedBounds(stream: seq<Byte>, delivered: seq<Byte>, segments: nat, flight: seq<seq<Byte>>,
                      noData: nat, ahead: nat, sizeTran: nat)
    requires Aligned(stream, delivered, segments, flight, noData, ahead, sizeTran)
    ensures |delivered| + ahead <= |stream| && sizeTran == |delivered| + ahead && ahead == |Flat(flight)|
    ensures |delivered| == 7 * segments
  {
  }

  lemma AlignedStart(stream: seq<Byte>, delivered: seq<Byte>, segments: nat, noData: nat)
    requires |delivered| == 7 * segments && delivered <= stream
    ensures Aligned(stream, delivered, segments, [], noData, 0, |delivered|)
  {
    assert delivered + [] == delivered;
  }

  lemma AlignedSend(stream: seq<Byte>, delivered: seq<Byte>, segments: nat, flight: seq<seq<Byte>>,
                    noData: nat, ahead: nat, sizeTran: nat, queue: seq<Byte>, data: seq<Byte>)
    requires Aligned(stream, delivered, segments, flight, noData, ahead, sizeTran) && stream == delivered + queue
    requires (flight != [] ==> noData == 0) && ahead + |data| <= |queue| && |data| <= 7
    requires data == queue[ahead..ahead + |data|]
    ensures Aligned(stream, delivered, segments, flight + [data], 7 - |data|, ahead + |data|, sizeTran + |data|)
    ensures data == stream[sizeTran..sizeTran + |data|]
  {
    FlatStep(flight, data);
    var at := |delivered| + ahead;
    assert stream[..at] + data == stream[..at + |data|];
    assert delivered + Flat(flight) == stream[..at];
    assert delivered + (Flat(flight) + data) == stream[..at + |data|];
  }

  /** The bytes a partial acknowledgement takes back. */
  lemma LostBytes(flight: seq<seq<Byte>>, k: nat, noData: nat)
    requires FullBut(flight) && k < |flight| && |flight[|flight| - 1]| + noData == 7
    ensures |Flat(flight)| - |Flat(flight[..k])| == (|flight| - k) * 7 - noData
  {
    FlatPrefix(flight, k);
    FlatPrefix(flight, |flight| - 1);
    FlatStep(flight[..|flight| - 1], flight[|flight| - 1]);
    assert flight[..|flight| - 1] + [flight[|flight| - 1]] == flight;
  }

  lemma AlignedAck(stream: seq<Byte>, delivered: seq<Byte>, segments: nat, flight: seq<seq<Byte>>,
                   noData: nat, ahead: nat, sizeTran: nat, queue: seq<Byte>, k: nat)
    requires Aligned(stream, delivered, segments, flight, noData, ahead, sizeTran) && stream == delivered + queue
    requires k <= |flight|
    ensures var done := Flat(flight[..k]);
            && |done| <= |queue| && done == queue[..|done|] && delivered + done <= stream
            && (k < |flight| ==> |done| == 7 * k && sizeTran - ((|flight| - k) * 7 - noData) == |delivered + done|)
            && (k == |flight| ==> |done| == ahead && |delivered + done| == sizeTran)
            && (k == |flight| && (flight == [] || noData == 0) ==> |done| == 7 * k)
            && (k == |flight| && flight != [] ==> |done| + noData == 7 * k)
  {
    FlatPrefix(flight, k);
    var done := Flat(flight[..k]);
    assert flight[..|flight|] == flight;
    assert Flat(flight) == stream[|delivered|..|delivered| + ahead] == queue[..ahead];
    if flight != [] {
      LostBytes(flight, |flight| - 1, noData);
      FlatPrefix(flight, |flight| - 1);
      if k < |flight| {
        LostBytes(flight, k, noData);
      }
    }
  }

  /** What a server does with a segment: it goes by the number it reads. The next one is
      taken, and ends the sub-block if it is marked or the last of the block; one out of turn
      ends the sub-block too. */
  function Takes(kept: seq<seq<Byte>>, ended: bool, header: Byte, blksize: nat, data: seq<Byte>)
    : (seq<seq<Byte>>, bool)
  {
    var number := header % 128;
    if ended then (kept, ended)
    else if number <= blksize && number == |kept| + 1 then (kept + [data], header >= 128 || number == blksize)
    else (kept, number != |kept| && kept != [])
  }

  /** It takes a segment exactly when it is the next one of a sub-block not ended, and ends the
      sub-block exactly on the mark, on the last number, and on one out of turn. */
  lemma TakesIff(kept: seq<seq<Byte>>, ended: bool, header: Byte, blksize: nat, data: seq<Byte>)
    ensures var (kept', ended') := Takes(kept, ended, header, blksize, data);
            var next := !ended && header % 128 == |kept| + 1 && |kept| < blksize;
            && (next ==> kept' == kept + [data]) && (!next ==> kept' == kept)
            && (ended' <==>
                 || ended
                 || (next && (header >= 128 || |kept| + 1 == blksize))
                 || (!next && kept != [] && header % 128 != |kept|))
  {
  }

  /** The server after the segments numbered from 1 came in, in turn, the last one marked or not. */
  ghost function TakesAll(flight: seq<seq<Byte>>, blksize: nat, last: bool): (seq<seq<Byte>>, bool)
    requires |flight| <= 127
  {
    if flight == [] then ([], false)
    else
      var n := |flight| - 1;
      var (kept, ended) := TakesAll(flight[..n], blksize, false);
      Takes(kept, ended, Header(n + 1, last), blksize, flight[n])
  }

  /** A sub-block that comes through whole is taken whole, and then ended if it was the last
      one or a full one. */
  lemma {:induction false} WholeSubblockIsTaken(flight: seq<seq<Byte>>, blksize: nat, last: bool)
    requires |flight| <= 127 && |flight| <= blksize
    ensures TakesAll(flight, blksize, last) == (flight, flight != [] && (last || |flight| == blksize))
    decreases |flight|
  {
    if flight != [] {
      var n := |flight| - 1;
      WholeSubblockIsTaken(flight[..n], blksize, false);
      assert flight == flight[..n] + [flight[n]];
    }
  }

  /** While numbers read back, the server has the first segments of the sub-block. */
  lemma TakesAPrefix(kept: seq<seq<Byte>>, ended: bool, header: Byte, blksize: nat,
                     flight: seq<seq<Byte>>, n: nat, last: bool)
    requires kept <= flight && 1 <= n <= |flight| && ReadsBack(header, n, last)
    ensures Takes(kept, ended, header, blksize, flight[n - 1]).0 <= flight
  {
  }

  class Sender {
    const fifo: ByteFifo
    const sizeInd: nat
    const index: U16
    const subIndex: Byte
    var state: State
    var sizeTran: nat
    var finished: bool
    var seqno: nat
    var blksize: nat
    var noData: nat
    var crc: U16

    /** Everything the application has handed over, and how much of it there was when the
        last segment was marked. */
    ghost var stream: seq<Byte>
    ghost var sealedAt: nat
    /** Payload bytes the server has acknowledged, in order. */
    ghost var delivered: seq<Byte>
    /** Number of segments acknowledged. */
    ghost var segments: nat
    /** Payloads of the segments sent since the last acknowledgement. */
    ghost var flight: seq<seq<Byte>>
    /** The server: the segments of the sub-block it has taken, whether it has ended the
        sub-block, and what it holds of the sub-blocks before. */
    ghost var kept: seq<seq<Byte>>
    ghost var ended: bool
    ghost var held: seq<Byte>
    /** Every acknowledgement so far told how many segments the server took, and every block
        size it named was one whose numbers can be read. */
    ghost var loyal: bool

    /** The queue holds exactly what is not yet acknowledged, and the checksum covers
        exactly what is. */
    ghost predicate Conserved()
      reads this, fifo, fifo.buf
    {
      && fifo.Valid() && stream == delivered + fifo.Contents()
      && crc == Fold(fifo.step, 0, delivered) && (loyal ==> held == delivered)
    }

    /** The second cursor stands behind the segments in flight, and `sizeTran` counts
        the bytes acknowledged and the bytes in flight. */
    ghost predicate InSubblock()
      requires fifo.Valid()
      reads this, fifo, fifo.buf
    {
      && Aligned(stream, delivered, segments, flight, noData, fifo.Ahead(), sizeTran)
      && seqno == |flight| && seqno <= 255 && blksize <= 255 && noData <= 7
      && (seqno > 0 && noData > 0 ==> finished) && seqno <= (if blksize == 0 then 1 else blksize)
      && (state == SubblockReq ==> !finished && (seqno == 0 || seqno < blksize))
      && (loyal ==> blksize <= 127 && kept <= flight)
      && (finished ==> && state == SubblockRsp && seqno > 0 && sizeTran == sealedAt
                       && (sizeInd == 0 || sizeTran == sizeInd))
    }

    /** Everything there was when the last segment was marked is acknowledged, in one piece
        and of the indicated size. */
    ghost predicate AllDelivered()
      reads this
    {
      && sizeTran == sealedAt == |delivered| && (sizeInd == 0 || sizeTran == sizeInd)
      && noData <= 7 && |delivered| + noData == 7 * segments
    }

    ghost predicate Untouched()
      reads this
    {
      delivered == [] && segments == 0 && noData <= 7 && sizeTran == 0 && !finished && crc == 0 && kept == []
    }

    ghost predicate Valid()
      reads this, fifo, fifo.buf
    {
      && fifo.Valid() && (state !in {Regular, Aborted} ==> Conserved())
      && (state in {InitiateReq, InitiateRsp} ==> Untouched())
      && (state in {SubblockReq, SubblockRsp} ==> InSubblock())
      && (state in {EndReq, EndRsp, Idle} ==> AllDelivered())
    }

    /** A transfer of an indicated size, or of none; short data go the regular way. */
    constructor (fifo: ByteFifo, index: U16, subIndex: Byte, sizeInd: nat, blockEnable: bool)
      requires fifo.Valid()
      modifies fifo
      ensures this.fifo == fifo && fifo.Valid() && fifo.Contents() == []
      ensures Valid() && this.index == index && this.subIndex == subIndex && this.sizeInd == sizeInd
      ensures stream == [] && held == [] && loyal
      ensures state == if blockEnable && (sizeInd == 0 || sizeInd > 21) then InitiateReq else Regular
    {
      this.fifo, this.index, this.subIndex, this.sizeInd := fifo, index, subIndex, sizeInd;
      state := if blockEnable && (sizeInd == 0 || sizeInd > SWITCH_THRESHOLD) then InitiateReq else Regular;
      sizeTran, finished, seqno, blksize, noData, crc := 0, false, 0, 0, 0, 0;
      stream, sealedAt, delivered, segments, flight := [], 0, [], 0, [];
      kept, ended, held, loyal := [], false, [], true;
      new;
      fifo.Reset();
    }

    /** The application hands over bytes, at any time; as many as fit are taken. */
    method BufWrite(data: seq<Byte>) returns (n: nat)
      requires fifo.Valid() && Valid()
      modifies this`stream, fifo`writePtr, fifo.buf
      ensures Valid() && n <= |data| && stream == old(stream) + data[..n]
      ensures n == Least(|data|, fifo.Capacity() - |old(fifo.Contents())|)
    {
      hide Flat, Fold, ByteFifo.Contents, ByteFifo.Ahead;
      var taken, _ := fifo.Write(data, 0);
      n := taken;
      stream := stream + data[..n];
    }

    /** Asks the server to take a block download, naming the object and the size if known. */
    method SendInitiate() returns (frame: Payload)
      requires Valid() && state == InitiateReq
      modifies this`state
      ensures Valid() && state == InitiateRsp && IndexOf(frame) == index && SubOf(frame) == subIndex
      ensures frame[0] == (if sizeInd > 0 then 0xC6 else 0xC4) && SizeOf(frame) == sizeInd % TWO32
    {
      AddressedFields(if sizeInd > 0 then 0xC6 else 0xC4, index, subIndex, Le32(sizeInd % TWO32));
      Le32RoundTrip(sizeInd % TWO32);
      frame := Addressed(if sizeInd > 0 then 0xC6 else 0xC4, index, subIndex, Le32(sizeInd % TWO32));
      state := InitiateRsp;
    }

    /** The server accepted the download and named its first block size. */
    method OnInitiateRsp(rx: Payload)
      requires Valid() && state == InitiateRsp
      modifies this`state, this`crc, this`blksize, this`seqno, this`flight, this`loyal, fifo`altReadPtr
      ensures Valid() && state in {SubblockReq, Aborted}
      ensures state == SubblockReq <==> rx[0] in {0xA0, 0xA4} && IndexOf(rx) == index && SubOf(rx) == subIndex
      ensures state == SubblockReq ==> blksize == (if 1 <= rx[4] <= 127 then rx[4] else 127) && flight == []
      ensures loyal == old(loyal)
    {
      hide Flat, Fold, ByteFifo.Contents, ByteFifo.Ahead, Aligned, FullBut;
      if rx[0] - (if rx[0] / 4 % 2 == 1 then 4 else 0) != 0xA0 || IndexOf(rx) != index || SubOf(rx) != subIndex {
        state := Aborted;
        return;
      }
      OpenFirst(rx[4]);
    }

    method OpenFirst(size: Byte)
      requires Valid() && state == InitiateRsp
      modifies this`state, this`crc, this`blksize, this`seqno, this`flight, this`loyal, fifo`altReadPtr
      ensures Valid() && state == SubblockReq && blksize == (if 1 <= size <= 127 then size else 127) && flight == []
      ensures loyal == old(loyal)
    {
      hide Flat, Fold, ByteFifo.Contents, ByteFifo.Ahead, Aligned, FullBut;
      crc := 0;
      NextSubblock(if size < 1 || size > 127 then 127 else size);
    }

    /** The header under which segment `n` of the sub-block went out. */
    ghost function HeaderOf(n: nat): Byte
      requires n < 256
      reads this
    {
      Header(n, finished && n == |flight|)
    }

    /** Segment `n` of the sub-block reaches the server. Segments may come twice, late, or
        never. */
    ghost method Arrives(n: nat)
      requires Valid() && state in {SubblockReq, SubblockRsp} && 1 <= n <= |flight|
      modifies this`kept, this`ended
      ensures Valid() && (kept, ended) == Takes(old(kept), old(ended), HeaderOf(n), blksize, flight[n - 1])
    {
      hide Fold, Flat, ByteFifo.Contents, ByteFifo.Ahead, Aligned, FullBut, Header, Takes;
      if loyal {
        HeaderReadsBack(n, finished && n == |flight|);
        TakesAPrefix(kept, ended, HeaderOf(n), blksize, flight, n, finished && n == |flight|);
      }
      kept, ended := Takes(kept, ended, HeaderOf(n), blksize, flight[n - 1]).0,
        Takes(kept, ended, HeaderOf(n), blksize, flight[n - 1]).1;
    }

    /** Sends the next segment: the seven bytes after those acknowledged and in flight, or
        fewer when these are the last. With a block size of at most 127 its header reads back. */
    method SendSegment(bufferPartial: bool) returns (sent: Option<(Byte, seq<Byte>)>)
      requires Valid() && state == SubblockReq
      modifies this`sealedAt, this`seqno, this`noData, this`flight, this`sizeTran, this`state, this`finished,
        fifo`altReadPtr
      ensures Valid()
      ensures state == Aborted && old(sizeTran) + Least(7, |stream| - old(sizeTran)) > sizeInd ==>
        sizeTran == old(sizeTran)
      ensures var upto := old(sizeTran) + Least(7, |stream| - old(sizeTran));
              var waits := bufferPartial && upto - old(sizeTran) < 7;
              && (sent.None? && state != Aborted <==> waits)
              && (waits ==> state == SubblockReq && flight == old(flight) && sizeTran == old(sizeTran))
              && (state == Aborted <==>
                   && !waits && sizeInd > 0
                   && (upto > sizeInd || (!bufferPartial && upto == |stream| && upto < sizeInd)))
      ensures sent.Some? ==> Segment(old(seqno), old(flight), old(sizeTran), bufferPartial, sent.value.0, sent.value.1)
      ensures sent.Some? ==> (blksize <= 127 ==> ReadsBack(sent.value.0, seqno, finished))
      ensures sent.Some? ==> (seqno >= 128 ==> !ReadsBack(sent.value.0, seqno, finished))
    {
      hide Fold, Flat, ByteFifo.Contents, ByteFifo.Ahead, Aligned, FullBut, Header, ReadsBack;
      sent := None;
      AlignedBounds(stream, delivered, segments, flight, noData, fifo.Ahead(), sizeTran);
      var available := fifo.AltOccupied();
      if available < 7 && bufferPartial {
        return;
      }
      sent := SendNow(bufferPartial);
      if sent.Some? {
        HeaderReadsBack(seqno, finished);
      }
    }

    /** What went out: the next bytes of the stream, under the next number. */
    ghost predicate Segment(seqno0: nat, flight0: seq<seq<Byte>>, sizeTran0: nat, bufferPartial: bool, header: Byte,
                            data: seq<Byte>)
      reads this
    {
      && seqno == seqno0 + 1 && (state == SubblockRsp <==> finished || seqno >= blksize)
      && state in {SubblockReq, SubblockRsp} && flight == flight0 + [data]
      && sizeTran0 <= sizeTran <= |stream| && data == stream[sizeTran0..sizeTran]
      && sizeTran - sizeTran0 == Least(7, |stream| - sizeTran0)
      && finished == (!bufferPartial && sizeTran == |stream|) && seqno < 256 && header == Header(seqno, finished)
    }

    method SendNow(bufferPartial: bool) returns (sent: Option<(Byte, seq<Byte>)>)
      requires Valid() && state == SubblockReq && sizeTran <= |stream|
      requires bufferPartial ==> |stream| - sizeTran >= 7
      modifies this`sealedAt, this`seqno, this`noData, this`flight, this`sizeTran, this`state, this`finished,
        fifo`altReadPtr
      ensures Valid() && (sent.None? <==> state == Aborted)
      ensures sizeInd > 0 && old(sizeTran) + Least(7, |stream| - old(sizeTran)) > sizeInd ==> sizeTran == old(sizeTran)
      ensures var upto := old(sizeTran) + Least(7, |stream| - old(sizeTran));
              state == Aborted <==>
                sizeInd > 0 && (upto > sizeInd || (!bufferPartial && upto == |stream| && upto < sizeInd))
      ensures sent.Some? ==> Segment(old(seqno), old(flight), old(sizeTran), bufferPartial, sent.value.0, sent.value.1)
    {
      hide Fold, Flat, ByteFifo.Contents, ByteFifo.Ahead, Aligned, FullBut, Header;
      var data := NextSegment();
      var header := CloseSegment(bufferPartial, |data|);
      sent := if header.Some? then Some((header.value, data)) else None;
    }

    /** A segment was read: is it too much, is it the last, is the sub-block complete? */
    method CloseSegment(bufferPartial: bool, count: nat) returns (header: Option<Byte>)
      requires Conserved() && Aligned(stream, delivered, segments, flight, noData, fifo.Ahead(), sizeTran)
      requires state == SubblockReq && !finished && 1 <= seqno == |flight| <= 255 && blksize <= 255 && noData <= 7
      requires count <= sizeTran <= |stream| && (seqno > 1 ==> seqno <= blksize)
      requires loyal ==> blksize <= 127 && kept <= flight
      requires noData > 0 ==> !bufferPartial && sizeTran == |stream|
      modifies this`sealedAt, this`sizeTran, this`state, this`finished
      ensures Valid() && (header.None? <==> state == Aborted)
      ensures state == Aborted <==>
        && sizeInd > 0
        && (old(sizeTran) > sizeInd || (!bufferPartial && old(sizeTran) == |stream| && old(sizeTran) < sizeInd))
      ensures sizeInd > 0 && old(sizeTran) > sizeInd ==> sizeTran == old(sizeTran) - count
      ensures header.Some? ==>
        && state in {SubblockReq, SubblockRsp} && sizeTran == old(sizeTran)
        && (state == SubblockRsp <==> finished || seqno >= blksize)
        && finished == (!bufferPartial && sizeTran == |stream|)
        && header.value == Header(seqno, finished)
    {
      hide Fold, Flat, ByteFifo.Contents, ByteFifo.Ahead, Aligned, FullBut;
      AlignedBounds(stream, delivered, segments, flight, noData, fifo.Ahead(), sizeTran);
      header := None;
      if sizeInd > 0 && sizeTran > sizeInd {
        sizeTran := sizeTran - count;
        state := Aborted;
        return;
      }
      var left := fifo.AltOccupied();
      if left == 0 && !bufferPartial {
        if sizeInd > 0 && sizeTran < sizeInd {
          state := Aborted;
          return;
        }
        finished, sealedAt := true, sizeTran;
        state := SubblockRsp;
        header := Some(Header(seqno, true));
      } else {
        if seqno >= blksize {
          state := SubblockRsp;
        }
        header := Some(seqno);
      }
    }

    /** Reads the next segment through the second cursor and counts it as sent. */
    method NextSegment() returns (data: seq<Byte>)
      requires Valid() && state == SubblockReq
      modifies this`seqno, this`noData, this`flight, this`sizeTran, fifo`altReadPtr
      ensures Conserved() && Aligned(stream, delivered, segments, flight, noData, fifo.Ahead(), sizeTran)
      ensures seqno == old(seqno) + 1 == |flight| && |data| + noData == 7 && flight == old(flight) + [data]
      ensures sizeTran == old(sizeTran) + |data| <= |stream| && fifo.Ahead() == old(fifo.Ahead()) + |data|
      ensures |data| == Least(7, |stream| - old(sizeTran)) && data == stream[old(sizeTran)..sizeTran]
    {
      hide Fold, Flat, ByteFifo.Contents, ByteFifo.Ahead, Aligned, FullBut;
      AlignedBounds(stream, delivered, segments, flight, noData, fifo.Ahead(), sizeTran);
      seqno := seqno + 1;
      data := fifo.AltRead(7);
      AlignedSend(stream, delivered, segments, flight, noData, old(fifo.Ahead()), sizeTran, fifo.Contents(), data);
      noData := 7 - |data|;
      flight := flight + [data];
      sizeTran := sizeTran + |data|;
    }

    /** The server acknowledges the first `rx[1]` segments of the sub-block: those are
        delivered for good, and sending resumes right behind them. Where it tells what it
        took, it holds exactly what the client counts as delivered. */
    method OnAck(rx: Payload)
      requires Valid() && state in {SubblockReq, SubblockRsp}
      modifies this`state, this`sizeTran, this`finished, this`crc, this`delivered, this`segments, this`blksize,
        this`seqno, this`flight, this`kept, this`ended, this`held, this`loyal, fifo`readPtr, fifo`altReadPtr
      ensures Valid()
      ensures state == Aborted <==> rx[0] != 0xA2 || rx[1] > |old(flight)|
      ensures state != Aborted ==>
        && delivered == old(delivered) + Flat(old(flight)[..rx[1]])
        && state == (if old(finished) && rx[1] == |old(flight)| then EndReq else SubblockReq)
        && (state == SubblockReq ==> flight == [] && sizeTran == |delivered| && blksize == rx[2])
        && held == old(held) + Flat(old(kept))
        && loyal == (old(loyal) && rx[1] == |old(kept)| && (state == SubblockReq ==> rx[2] <= 127))
    {
      hide Flat, Fold, ByteFifo.Contents, ByteFifo.Ahead, Aligned, FullBut;
      var ackseq := rx[1];
      if rx[0] != 0xA2 || ackseq > seqno {
        state := Aborted;
        return;
      }
      Settle(ackseq);
      if finished {
        state := EndReq;
      } else {
        NextSubblock(rx[2]);
      }
    }

    /** Takes back the segments not acknowledged and gives up the others. */
    method Settle(ackseq: nat)
      requires fifo.Valid() && Conserved() && InSubblock() && ackseq <= seqno
      modifies this`sizeTran, this`finished, this`crc, this`delivered, this`segments, this`kept, this`ended, this`held,
        this`loyal, fifo`readPtr, fifo`altReadPtr
      ensures Conserved() && finished == (old(finished) && ackseq == seqno) && kept == []
      ensures delivered == old(delivered) + Flat(flight[..ackseq]) && sizeTran == |delivered|
      ensures if finished then AllDelivered() else |delivered| == 7 * segments
      ensures held == old(held) + Flat(old(kept)) && loyal == (old(loyal) && ackseq == |old(kept)|)
    {
      hide Flat, Fold, ByteFifo.Contents, ByteFifo.Ahead, Aligned, FullBut;
      AlignedAck(stream, delivered, segments, flight, noData, fifo.Ahead(), sizeTran, fifo.Contents(), ackseq);
      AlignedBounds(stream, delivered, segments, flight, noData, fifo.Ahead(), sizeTran);
      ghost var confirmed := Flat(flight[..ackseq]);
      if ackseq < seqno {
        var cntFailed := (seqno - ackseq) * 7 - noData;
        sizeTran := sizeTran - cntFailed;
        var _ := fifo.AltBegin(ackseq * 7);
        finished := false;
      }
      Confirm(confirmed, ackseq);
    }

    method NextSubblock(nextBlksize: Byte)
      requires Conserved() && |delivered| == 7 * segments && sizeTran == |delivered| && noData <= 7
      requires !finished && kept == []
      modifies this`blksize, this`seqno, this`flight, this`state, this`loyal, fifo`altReadPtr
      ensures Valid() && state == SubblockReq && flight == [] && blksize == nextBlksize
      ensures loyal == (old(loyal) && nextBlksize <= 127)
    {
      hide Flat, Fold, ByteFifo.Contents, ByteFifo.Ahead, Aligned, FullBut;
      blksize, loyal := nextBlksize, loyal && nextBlksize <= 127;
      seqno, flight := 0, [];
      var _ := fifo.AltBegin(0);
      AlignedStart(stream, delivered, segments, noData);
      state := SubblockReq;
    }

    /** Gives up the confirmed bytes at the front of the queue; the server moves on too. */
    method Confirm(ghost confirmed: seq<Byte>, ghost count: nat)
      requires Conserved() && fifo.Ahead() == |confirmed| <= |fifo.Contents()| && count <= |flight|
      requires loyal ==> kept <= flight
      requires confirmed == fifo.Contents()[..|confirmed|] && confirmed == Flat(flight[..count])
      modifies this`crc, this`delivered, this`segments, this`kept, this`ended, this`held, this`loyal, fifo`readPtr
      ensures Conserved() && delivered == old(delivered) + confirmed && segments == old(segments) + count && kept == []
      ensures held == old(held) + Flat(old(kept)) && loyal == (old(loyal) && count == |old(kept)|)
    {
      hide Fold, Flat, ByteFifo.Contents, ByteFifo.Ahead;
      FoldJoins(fifo.step, 0, delivered, confirmed);
      assert stream == delivered + confirmed + fifo.Contents()[|confirmed|..];
      crc := fifo.AltFinish(crc);
      delivered, segments := delivered + confirmed, segments + count;
      assert loyal && count == |kept| ==> kept == flight[..count];
      held, loyal, kept, ended := held + Flat(kept), loyal && count == |kept|, [], false;
    }

    /** Closes the transfer: the checksum sent is that of everything delivered, which is
        everything there was when the last segment was marked, and the byte count tells how
        much of that segment was padding. */
    method SendEnd() returns (frame: Payload)
      requires Valid() && state == EndReq
      modifies this`state
      ensures Valid() && state == EndRsp && sealedAt <= |stream| && delivered == stream[..sealedAt]
      ensures frame[0] == 0xC1 + 4 * noData
      ensures (frame[1] as int) + 0x100 * (frame[2] as int) == Fold(fifo.step, 0, delivered)
      ensures noData <= 7 && |delivered| + noData == 7 * segments
    {
      frame := [0xC1 + 4 * noData, crc % 0x100, crc / 0x100, 0, 0, 0, 0, 0];
      state := EndRsp;
    }

    /** The server confirms the end: what the application handed over before the last segment
        was marked is delivered, once and in order, and a server that told its counts holds it. */
    method OnEndRsp(rx: Payload)
      requires Valid() && state == EndRsp
      modifies this`state
      ensures Valid() && state == (if rx[0] == 0xA1 then Idle else Aborted)
      ensures state == Idle ==>
        && sealedAt <= |stream| && delivered == stream[..sealedAt] && fifo.Contents() == stream[sealedAt..]
        && (loyal ==> held == stream[..sealedAt])
    {
      state := if rx[0] == 0xA1 then Idle else Aborted;
    }
  }

  /** The server may name a block size above 127 after the first sub-block. With 128 full
      segments to send, the header of the last of them is wrong: its number is lost, and it
      looks like the end. */
  method NumbersRunOut(sender: Sender) returns (sent: Option<(Byte, seq<Byte>)>)
    requires sender.Valid() && sender.state == SubblockReq && sender.flight == [] && sender.blksize >= 128
    requires sender.sizeInd == 0 && sender.sizeTran + 7 * 128 <= |sender.stream|
    modifies sender, sender.fifo
    ensures sender.Valid() && sender.seqno == 128 && !sender.finished
    ensures sent.Some? && sent.value.0 == 128 && !ReadsBack(sent.value.0, sender.seqno, sender.finished)
  {
    hide Flat, Fold, ByteFifo.Contents, ByteFifo.Ahead, Aligned, FullBut, Sender.Conserved;
    sent := None;
    ghost var at := sender.sizeTran;
    var n := 0;
    while n < 128
      invariant n <= 128 && sender.Valid() && sender.seqno == n && sender.blksize >= 128 && !sender.finished
      invariant sender.state == SubblockReq || (n == 128 && sender.state == SubblockRsp)
      invariant sender.sizeTran == at + 7 * n && at + 7 * 128 <= |sender.stream|
      invariant n > 0 ==> sent.Some? && sent.value.0 == n
    {
      sent := sender.SendSegment(true);
      n := n + 1;
    }
  }

}
