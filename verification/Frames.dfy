/** The frames of both machines as numbers: every byte that goes on the bus, and under which
    identifier. */
module Frames {
  import opened Segments
  import opened Wire
  import opened ClientSpec
  import opened ServerSpec
  import opened Protocol

  // ----- fields -----

  lemma Identifiers(node: Byte, cobId: U16)
    requires ValidNode(node) && cobId < 0x800
    ensures RsdoId(node) == 0x600 + node && TsdoId(node) == 0x580 + node
    ensures NodeOfRsdo(cobId) == Some(node) <==> cobId == 0x600 + node
    ensures NodeOfTsdo(cobId) == Some(node) <==> cobId == 0x580 + node
  {
  }

  lemma LittleEndian(n: U32)
    ensures Le32(n) == [n % 0x100, n / 0x100 % 0x100, n / 0x1_0000 % 0x100, n / 0x100_0000]
  {
    assert n / 0x100 / 0x100 == n / 0x1_0000;
    assert n / 0x1_0000 / 0x100 == n / 0x100_0000;
  }

  lemma Address(cmd: Byte, idx: U16, sub: Byte, tail: seq<Byte>)
    requires |tail| <= 4
    ensures Addressed(cmd, idx, sub, tail)[..4] == [cmd, idx % 0x100, idx / 0x100, sub]
    ensures Addressed(cmd, idx, sub, tail)[4..4 + |tail|] == tail
    ensures forall i :: 4 + |tail| <= i < 8 ==> Addressed(cmd, idx, sub, tail)[i] == 0
  {
    ZerosAreZero(4 - |tail|);
    assert idx / 0x100 % 0x100 == idx / 0x100;
  }

  lemma FourAndFour(d: Payload, a: seq<Byte>, b: seq<Byte>)
    requires d[..4] == a && d[4..8] == b && |a| == |b| == 4
    ensures d == a + b
  {
    assert d == d[..4] + d[4..8];
  }

  lemma WholeAddress(cmd: Byte, idx: U16, sub: Byte, tail: seq<Byte>)
    requires |tail| in {0, 4}
    ensures Addressed(cmd, idx, sub, tail) ==
      [cmd, idx % 0x100, idx / 0x100, sub] + if tail == [] then [0, 0, 0, 0] else tail
  {
    Address(cmd, idx, sub, tail);
    var d := Addressed(cmd, idx, sub, tail);
    if tail == [] {
      assert d[4..8] == [0, 0, 0, 0];
      FourAndFour(d, d[..4], [0, 0, 0, 0]);
    } else {
      FourAndFour(d, d[..4], tail);
    }
  }

  lemma EmptySegment(cmd: Byte)
    ensures SegmentBody(cmd, []) == [cmd, 0, 0, 0, 0, 0, 0, 0]
  {
    ZerosAreZero(7);
    var d := SegmentBody(cmd, []);
    assert forall i :: 1 <= i < 8 ==> d[i] == Zeros(7)[i - 1];
  }

  lemma SegmentBytes(cmd: Byte, payload: seq<Byte>)
    requires |payload| <= 7
    ensures var d := SegmentBody(cmd, payload);
            d[0] == cmd && d[1..1 + |payload|] == payload && forall i :: 1 + |payload| <= i < 8 ==> d[i] == 0
  {
    ZerosAreZero(7 - |payload|);
    var d := SegmentBody(cmd, payload);
    assert forall i :: 1 + |payload| <= i < 8 ==> d[i] == Zeros(7 - |payload|)[i - 1 - |payload|];
  }

  /** One to four bytes behind the object, under a command that tells how many. */
  ghost predicate IsShort(d: Payload, cmd: Byte, idx: U16, sub: Byte, value: seq<Byte>) {
    && |value| <= 4
    && d[..4] == [cmd, idx % 0x100, idx / 0x100, sub]
    && d[4..4 + |value|] == value
    && forall i :: 4 + |value| <= i < 8 ==> d[i] == 0
  }

  /** A size behind the object, low byte first. */
  ghost predicate IsSized(d: Payload, cmd: Byte, idx: U16, sub: Byte, size: U32) {
    d == [cmd, idx % 0x100, idx / 0x100, sub,
          size % 0x100, size / 0x100 % 0x100, size / 0x1_0000 % 0x100, size / 0x100_0000]
  }

  /** Segment `k` of a value: its seven bytes, or what is left, behind the command. */
  ghost predicate IsSegment(d: Payload, value: seq<Byte>, k: nat) {
    var at := Least(7 * k, |value|);
    var n := Least(7, |value| - at);
    && d[0] == (if k % 2 == 1 then 0x10 else 0) + 2 * (7 - n) + (if |value| <= 7 * k + 7 then 1 else 0)
    && d[1..1 + n] == value[at..at + n]
    && forall i :: 1 + n <= i < 8 ==> d[i] == 0
  }

  lemma ShortBytes(cs: Byte, idx: U16, sub: Byte, value: seq<Byte>)
    requires cs in {0x20, 0x40} && 1 <= |value| <= 4
    ensures IsShort(Addressed(InitCommand(cs, |value|), idx, sub, value), cs + 3 + 4 * (4 - |value|), idx, sub, value)
  {
    hide Addressed;
    Address(InitCommand(cs, |value|), idx, sub, value);
  }

  lemma SizedBytes(cmd: Byte, idx: U16, sub: Byte, size: U32)
    ensures IsSized(Addressed(cmd, idx, sub, Le32(size)), cmd, idx, sub, size)
  {
    hide Addressed, Le32;
    LittleEndian(size);
    WholeAddress(cmd, idx, sub, Le32(size));
  }

  lemma ValueSegment(value: seq<Byte>, k: nat)
    ensures var c := Chunk(value, k);
            IsSegment(SegmentBody(SegmentCommand(0, Parity(k), |c|, LastChunk(value, k)), c), value, k)
  {
    hide SegmentBody;
    var c := Chunk(value, k);
    SegmentBytes(SegmentCommand(0, Parity(k), |c|, LastChunk(value, k)), c);
  }

  // ----- requests -----

  /** Reads: 40 to open, then 60 and 70 in turn. */
  lemma ReadRequests(s: Session, j: nat)
    requires s.Valid() && s.upload
    ensures s.Req(j).cobId == 0x600 + s.node
    ensures s.Req(0).data == [0x40, s.idx % 0x100, s.idx / 0x100, s.sub, 0, 0, 0, 0]
    ensures j >= 1 ==> s.Req(j).data == [if j % 2 == 1 then 0x60 else 0x70, 0, 0, 0, 0, 0, 0, 0]
  {
    hide Addressed, SegmentBody, RsdoId, TsdoId;
    Identifiers(s.node, 0);
    WholeAddress(0x40, s.idx, s.sub, []);
    EmptySegment(0x60);
    EmptySegment(0x70);
  }

  /** Writes: 23, 27, 2B or 2F with the four to one bytes, or 21 with the size. Then a
      segment: 10 for every second one, twice the bytes it leaves free, one more for the
      last. */
  lemma WriteRequests(s: Session, j: nat)
    requires s.Valid() && !s.upload
    ensures s.Req(j).cobId == 0x600 + s.node
    ensures |s.bytes| <= 4 ==> IsShort(s.Req(0).data, 0x23 + 4 * (4 - |s.bytes|), s.idx, s.sub, s.bytes)
    ensures |s.bytes| > 4 ==> IsSized(s.Req(0).data, 0x21, s.idx, s.sub, |s.bytes| % 0x1_0000_0000)
    ensures j >= 1 ==> IsSegment(s.Req(j).data, s.bytes, j - 1)
  {
    hide Addressed, SegmentBody, Le32, RsdoId, InitCommand, SegmentCommand, Chunk, LastChunk, IsShort,
      IsSized, IsSegment;
    Identifiers(s.node, 0);
    if |s.bytes| <= 4 {
      ShortBytes(0x20, s.idx, s.sub, s.bytes);
    } else {
      SizedBytes(0x21, s.idx, s.sub, |s.bytes| % TWO32);
    }
    if j >= 1 {
      ValueSegment(s.bytes, j - 1);
    }
  }

  // ----- responses -----

  /** To reads: 43, 47, 4B or 4F with the four to one bytes, or 41 with the size; then the
      segments. */
  lemma ReadResponses(s: Session, j: nat)
    requires s.Valid() && s.upload
    ensures s.Resp(j).cobId == 0x580 + s.node
    ensures 1 <= |s.bytes| <= 4 ==> IsShort(s.Resp(0).data, 0x43 + 4 * (4 - |s.bytes|), s.idx, s.sub, s.bytes)
    ensures !(1 <= |s.bytes| <= 4) ==> IsSized(s.Resp(0).data, 0x41, s.idx, s.sub, |s.bytes| % 0x1_0000_0000)
    ensures j >= 1 ==> IsSegment(s.Resp(j).data, s.bytes, j - 1)
  {
    hide Addressed, SegmentBody, Le32, TsdoId, InitCommand, SegmentCommand, Chunk, LastChunk, IsShort,
      IsSized, IsSegment;
    Identifiers(s.node, 0);
    if 1 <= |s.bytes| <= 4 {
      ShortBytes(0x40, s.idx, s.sub, s.bytes);
    } else {
      SizedBytes(0x41, s.idx, s.sub, |s.bytes| % TWO32);
    }
    if j >= 1 {
      ValueSegment(s.bytes, j - 1);
    }
  }

  /** To writes: 60 to the opening, then 20 and 30 in turn. */
  lemma WriteResponses(s: Session, j: nat)
    requires s.Valid() && !s.upload
    ensures s.Resp(j).cobId == 0x580 + s.node
    ensures s.Resp(0).data == [0x60, s.idx % 0x100, s.idx / 0x100, s.sub, 0, 0, 0, 0]
    ensures j >= 1 ==> s.Resp(j).data == [if j % 2 == 1 then 0x20 else 0x30, 0, 0, 0, 0, 0, 0, 0]
  {
    hide Addressed, SegmentBody, RsdoId, TsdoId;
    Identifiers(s.node, 0);
    WholeAddress(0x60, s.idx, s.sub, []);
    EmptySegment(0x20);
    EmptySegment(0x30);
  }

  // ----- aborts -----

  lemma Aborts(idx: U16, sub: Byte, code: AbortCode)
    ensures var n := Raw(code);
            AbortBody(idx, sub, code) ==
              [0x80, idx % 0x100, idx / 0x100, sub, n % 0x100, n / 0x100 % 0x100, n / 0x1_0000 % 0x100, n / 0x100_0000]
  {
    hide Raw;
    LittleEndian(Raw(code));
    WholeAddress(0x80, idx, sub, Le32(Raw(code)));
  }

  /** The aborts the two machines raise themselves. */
  lemma OwnAborts(idx: U16, sub: Byte)
    ensures var head := [0x80, idx % 0x100, idx / 0x100, sub];
            && AbortBody(idx, sub, ToggleBitNotAlternated) == head + [0x00, 0x00, 0x03, 0x05]
            && AbortBody(idx, sub, ProtocolTimeout) == head + [0x00, 0x00, 0x04, 0x05]
            && AbortBody(idx, sub, InvalidCommandSpecifier) == head + [0x01, 0x00, 0x04, 0x05]
            && AbortBody(idx, sub, OutOfMemory) == head + [0x05, 0x00, 0x04, 0x05]
            && AbortBody(idx, sub, DataTypeLengthMismatch) == head + [0x10, 0x00, 0x07, 0x06]
  {
    hide Raw, AbortBody, Le32;
    ProtocolNumbers();
    ValueNumbers();
    OwnNumbers();
    AbortOf(idx, sub, ToggleBitNotAlternated);
    AbortOf(idx, sub, ProtocolTimeout);
    AbortOf(idx, sub, InvalidCommandSpecifier);
    AbortOf(idx, sub, OutOfMemory);
    AbortOf(idx, sub, DataTypeLengthMismatch);
  }

  lemma OwnNumbers()
    ensures Le32(0x0503_0000) == [0x00, 0x00, 0x03, 0x05]
    ensures Le32(0x0504_0000) == [0x00, 0x00, 0x04, 0x05]
    ensures Le32(0x0504_0001) == [0x01, 0x00, 0x04, 0x05]
    ensures Le32(0x0504_0005) == [0x05, 0x00, 0x04, 0x05]
    ensures Le32(0x0607_0010) == [0x10, 0x00, 0x07, 0x06]
  {
  }

  lemma AbortOf(idx: U16, sub: Byte, code: AbortCode)
    ensures AbortBody(idx, sub, code) == [0x80, idx % 0x100, idx / 0x100, sub] + Le32(Raw(code))
  {
    hide Raw, Le32, Addressed;
    WholeAddress(0x80, idx, sub, Le32(Raw(code)));
  }

  /** The numbers of section 7.2.4.3.17 of CiA 301: the protocol, */
  lemma ProtocolNumbers()
    ensures Raw(ToggleBitNotAlternated) == 0x0503_0000
    ensures Raw(ProtocolTimeout) == 0x0504_0000
    ensures Raw(InvalidCommandSpecifier) == 0x0504_0001
    ensures Raw(InvalidBlockSize) == 0x0504_0002
    ensures Raw(InvalidSequenceNumber) == 0x0504_0003
    ensures Raw(CrcError) == 0x0504_0004
    ensures Raw(OutOfMemory) == 0x0504_0005
  {
  }

  /** the object, */
  lemma ObjectNumbers()
    ensures Raw(UnsupportedAccess) == 0x0601_0000
    ensures Raw(ReadWriteOnly) == 0x0601_0001
    ensures Raw(WriteReadOnly) == 0x0601_0002
    ensures Raw(ObjectDoesNotExist) == 0x0602_0000
    ensures Raw(NotMappable) == 0x0604_0041
    ensures Raw(PdoLengthExceeded) == 0x0604_0042
    ensures Raw(ParameterIncompatibility) == 0x0604_0043
    ensures Raw(InternalIncompatibility) == 0x0604_0047
    ensures Raw(HardwareError) == 0x0606_0000
  {
  }

  /** the value, */
  lemma ValueNumbers()
    ensures Raw(DataTypeLengthMismatch) == 0x0607_0010
    ensures Raw(DataTypeLengthHigh) == 0x0607_0012
    ensures Raw(DataTypeLengthLow) == 0x0607_0013
    ensures Raw(SubindexDoesNotExist) == 0x0609_0011
    ensures Raw(InvalidValue) == 0x0609_0030
    ensures Raw(ValueTooHigh) == 0x0609_0031
    ensures Raw(ValueTooLow) == 0x0609_0032
    ensures Raw(MaxLessThanMin) == 0x0609_0036
    ensures Raw(ResourceNotAvailable) == 0x060A_0023
  {
  }

  /** the device. */
  lemma DeviceNumbers()
    ensures Raw(General) == 0x0800_0000
    ensures Raw(StorageError) == 0x0800_0020
    ensures Raw(StorageLocalControl) == 0x0800_0021
    ensures Raw(StorageDeviceState) == 0x0800_0022
    ensures Raw(NoObjectDictionary) == 0x0800_0023
    ensures Raw(NoData) == 0x0800_0024
  {
  }

  // ----- what the machines send -----

  /** Starting a transfer from rest queues the opening request. */
  lemma StartBytes(c: Client, node: Byte, idx: U16, sub: Byte, data: seq<Byte>, now: nat)
    requires c.exchange == Rest && ValidNode(node)
    ensures c.BeginUpload(node, idx, sub, now).0.tx ==
      Some(SdoFrame(0x600 + node, [0x40, idx % 0x100, idx / 0x100, sub, 0, 0, 0, 0]))
    ensures data != [] ==>
      c.BeginDownload(node, idx, sub, data, now).0.tx == Some(Session(node, idx, sub, false, data).Req(0))
  {
    ReadRequests(Session(node, idx, sub, true, []), 0);
  }

  /** Whatever transfer a client is in, giving up queues the abort of its object. */
  lemma AbortBytes(c: Client, code: AbortCode)
    requires c.exchange != Rest && ValidNode(c.exchange.node)
    ensures var x, n := c.exchange, Raw(code);
            c.AbortWith(code).tx ==
              Some(SdoFrame(0x600 + x.node,
                            [0x80, x.idx % 0x100, x.idx / 0x100, x.sub,
                             n % 0x100, n / 0x100 % 0x100, n / 0x1_0000 % 0x100, n / 0x100_0000]))
  {
    hide Raw, AbortBody;
    Identifiers(c.exchange.node, 0);
    Aborts(c.exchange.idx, c.exchange.sub, code);
  }

  /** An unknown command, A0 or above, is answered by the abort 05040001 of the object named,
      drops the transfer that was open, and does not reach the dictionary. */
  lemma UnknownCommands<S>(v: Server, f: SdoFrame, now: nat, od: Dictionary<S>)
    requires ValidNode(v.node) && f.cobId == 0x600 + v.node && f.data[0] >= 0xA0
    ensures var step, d := v.Handle(f, now, od), f.data;
            && step.aborted == Some(InvalidCommandSpecifier)
            && step.od == od
            && step.server.transfer == Idle
            && step.server.tx == Some(SdoFrame(0x580 + v.node, [0x80, d[1], d[2], d[3], 0x01, 0x00, 0x04, 0x05]))
  {
    hide AbortBody;
    Identifiers(v.node, f.cobId);
    CommandNumber(f.data[0]);
    var d := f.data;
    OwnAborts(IndexOf(d), SubOf(d));
    assert [0x80, d[1], d[2], d[3]] + [0x01, 0x00, 0x04, 0x05] == [0x80, d[1], d[2], d[3], 0x01, 0x00, 0x04, 0x05];
    assert IndexOf(f.data) % 0x100 == f.data[1] && IndexOf(f.data) / 0x100 == f.data[2];
  }
}
