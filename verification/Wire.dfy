/** The SDO wire format shared by client and server: bytes, CAN identifiers,
    abort codes and the layout of the eight data bytes (CiA 301, section 7.2.4.3).
    Masks and shifts are written as division and remainder; `MasksAreArithmetic`
    states the agreement with the bit operators. */
module Wire {

  type Byte = x: int | 0 <= x < 0x100
  type U16 = x: int | 0 <= x < 0x1_0000
  type U32 = x: int | 0 <= x < 0x1_0000_0000
  type Payload = d: seq<Byte> | |d| == 8 witness [0, 0, 0, 0, 0, 0, 0, 0]

  const TWO32: nat := 0x1_0000_0000

  function Least(a: nat, b: nat): nat { if a <= b then a else b }

  datatype Option<+T> = None | Some(value: T)

  // ----- CAN identifiers -----

  const COB_RSDO_BASE: U16 := 0x600
  const COB_TSDO_BASE: U16 := 0x580

  datatype SdoFrame = SdoFrame(cobId: U16, data: Payload)

  function RsdoId(node: Byte): U16 { COB_RSDO_BASE + node % 0x80 }

  function TsdoId(node: Byte): U16 { COB_TSDO_BASE + node % 0x80 }

  function NodeOfTsdo(cobId: U16): Option<Byte> {
    if cobId / 0x80 % 16 == COB_TSDO_BASE / 0x80 then Some(cobId % 0x80) else None
  }

  function NodeOfRsdo(cobId: U16): Option<Byte> {
    if cobId / 0x80 % 16 == COB_RSDO_BASE / 0x80 then Some(cobId % 0x80) else None
  }

  /** Requests and responses live in disjoint identifier ranges, and each range names its node. */
  lemma IdentifiersNameTheNode(node: Byte)
    requires node < 0x80
    ensures NodeOfRsdo(RsdoId(node)) == Some(node) && NodeOfTsdo(RsdoId(node)) == None
    ensures NodeOfTsdo(TsdoId(node)) == Some(node) && NodeOfRsdo(TsdoId(node)) == None
  {
  }

  // ----- command byte -----

  const CCS_DOWNLOAD_SEGMENT: Byte := 0x00
  const CCS_INIT_DOWNLOAD: Byte := 0x20
  const CCS_INIT_UPLOAD: Byte := 0x40
  const CCS_UPLOAD_SEGMENT: Byte := 0x60
  const CS_ABORT: Byte := 0x80

  const SCS_UPLOAD_SEGMENT: Byte := 0x00
  const SCS_DOWNLOAD_SEGMENT: Byte := 0x20
  const SCS_INIT_UPLOAD: Byte := 0x40
  const SCS_INIT_DOWNLOAD: Byte := 0x60

  const TOGGLE_BIT: Byte := 0x10

  /** `cmd & CS_MASK` */
  function Specifier(cmd: Byte): Byte { cmd - cmd % 0x20 }

  /** The top three bits are the number of the command. */
  lemma CommandNumber(cmd: Byte)
    ensures Specifier(cmd) == 0x20 * (cmd / 0x20)
  {
  }

  /** `cmd & TOGGLE_BIT != 0` */
  predicate Toggle(cmd: Byte) { cmd / 0x10 % 2 == 1 }

  /** The `e` bit of an initiate frame. */
  predicate Expedited(cmd: Byte) { cmd / 2 % 2 == 1 }

  /** The `s` bit of an initiate frame. */
  predicate SizeIndicated(cmd: Byte) { cmd % 2 == 1 }

  /** Number of data bytes an expedited initiate frame carries. */
  function ExpeditedLength(cmd: Byte): nat {
    if SizeIndicated(cmd) then 4 - cmd / 4 % 4 else 4
  }

  /** Number of data bytes a segment carries. */
  function SegmentLength(cmd: Byte): (n: nat)
    ensures n <= 7
  {
    7 - cmd / 2 % 8
  }

  /** The `c` bit of a segment: no more segments follow. */
  predicate FinalSegment(cmd: Byte) { cmd % 2 == 1 }

  function SegmentCommand(cs: Byte, toggle: bool, length: nat, last: bool): Byte
    requires cs % 0x20 == 0 && length <= 7
  {
    cs + (if toggle then TOGGLE_BIT else 0) + 2 * (7 - length) + (if last then 1 else 0)
  }

  function InitCommand(cs: Byte, expeditedLength: nat): Byte
    requires cs % 0x20 == 0 && 1 <= expeditedLength <= 4
  {
    cs + 4 * (4 - expeditedLength) + 3
  }

  lemma SegmentCommandDecodes(cs: Byte, toggle: bool, length: nat, last: bool)
    requires cs % 0x20 == 0 && length <= 7
    ensures var cmd := SegmentCommand(cs, toggle, length, last);
            && Specifier(cmd) == cs && Toggle(cmd) == toggle
            && SegmentLength(cmd) == length && FinalSegment(cmd) == last
  {
    var t := if toggle then 1 else 0;
    var l := if last then 1 else 0;
    var cmd: int := SegmentCommand(cs, toggle, length, last);
    var q: int := (cs as int) / 0x20;
    DivRem(cmd, 0x20, q, 16 * t + 2 * (7 - length) + l);
    DivRem(cmd, 16, 2 * q + t, 2 * (7 - length) + l);
    DivRem(cmd / 16, 2, q, t);
    DivRem(cmd, 2, 16 * q + 8 * t + (7 - length), l);
    DivRem(cmd / 2, 8, 2 * q + t, 7 - length);
  }

  lemma InitCommandDecodes(cs: Byte, length: nat)
    requires cs % 0x20 == 0 && 1 <= length <= 4
    ensures var cmd := InitCommand(cs, length);
            Specifier(cmd) == cs && Expedited(cmd) && ExpeditedLength(cmd) == length
  {
    var cmd: int := InitCommand(cs, length);
    var q: int := (cs as int) / 0x20;
    DivRem(cmd, 0x20, q, 4 * (4 - length) + 3);
    DivRem(cmd, 2, 16 * q + 2 * (4 - length) + 1, 1);
    DivRem(cmd / 2, 2, 8 * q + (4 - length), 1);
    DivRem(cmd, 4, 8 * q + (4 - length), 3);
    DivRem(cmd / 4, 4, 2 * q, 4 - length);
  }

  lemma DivRem(x: int, d: int, q: int, r: int)
    requires 0 <= r < d && x == q * d + r
    ensures x / d == q && x % d == r
  {
    var k := x / d - q;
    assert k * d == r - x % d;
    assert (k >= 1 ==> k * d >= d) && (k <= -1 ==> k * d <= -d);
  }

  lemma LowBits(b: bv8)
    ensures (b & 3) as int == (b as int) % 4
    ensures (b & 7) as int == (b as int) % 8
  {
  }

  lemma Shifts(b: bv8)
    ensures (b >> 1) as int == (b as int) / 2
    ensures (b >> 2) as int == (b as int) / 4
  {
  }

  lemma SpecifierIsAMask(b: bv8)
    ensures Specifier(b as int) == (b & 0xE0) as int
  {
  }

  lemma FlagsAreMasks(b: bv8)
    ensures Toggle(b as int) == (b & 0x10 != 0)
    ensures SizeIndicated(b as int) == (b & 0x01 != 0)
  {
  }

  lemma ExpeditedIsAMask(b: bv8)
    ensures Expedited(b as int) == (b & 0x02 != 0)
  {
    Shifts(b);
    FlagsAreMasks(b >> 1);
    assert (b & 0x02 != 0) == ((b >> 1) & 0x01 != 0);
  }

  /** On every command byte the decoders above are the masks and shifts of the source. */
  lemma MasksAreArithmetic(b: bv8)
    ensures Specifier(b as int) == (b & 0xE0) as int
    ensures Toggle(b as int) == (b & 0x10 != 0)
    ensures Expedited(b as int) == (b & 0x02 != 0)
    ensures SizeIndicated(b as int) == FinalSegment(b as int) == (b & 0x01 != 0)
    ensures SegmentLength(b as int) == 7 - ((b >> 1) & 7) as int
    ensures ExpeditedLength(b as int) == if b & 0x01 != 0 then 4 - ((b >> 2) & 3) as int else 4
  {
    SpecifierIsAMask(b);
    FlagsAreMasks(b);
    ExpeditedIsAMask(b);
    Shifts(b);
    LowBits(b >> 1);
    LowBits(b >> 2);
  }

  // ----- multi-byte fields -----

  function Zeros(n: nat): (z: seq<Byte>)
    ensures |z| == n
  {
    seq(n, _ => 0)
  }

  lemma ZerosAreZero(n: nat)
    ensures forall i :: 0 <= i < n ==> Zeros(n)[i] == 0
  {
  }

  function Low(n: nat): Byte { n % 0x100 }

  function High(n: nat): nat { n / 0x100 }

  function Le32(n: U32): (d: seq<Byte>)
    ensures |d| == 4
  {
    [Low(n), Low(High(n)), Low(High(High(n))), Low(High(High(High(n))))]
  }

  function FromLe32(d: seq<Byte>): U32
    requires |d| == 4
  {
    (d[0] as int) + 0x100 * ((d[1] as int) + 0x100 * ((d[2] as int) + 0x100 * (d[3] as int)))
  }

  lemma LowHigh(n: nat)
    ensures n == Low(n) + 0x100 * High(n)
  {
  }

  lemma Le32RoundTrip(n: U32)
    ensures FromLe32(Le32(n)) == n
  {
    LowHigh(n);
    LowHigh(High(n));
    LowHigh(High(High(n)));
    assert High(High(High(n))) < 0x100;
  }

  function IndexOf(d: Payload): U16 { (d[1] as int) + 0x100 * (d[2] as int) }

  function SubOf(d: Payload): Byte { d[3] }

  /** The four data bytes after the index of an initiate or abort frame, as a number. */
  function SizeOf(d: Payload): U32 { FromLe32(d[4..8]) }

  /** The size an initiate frame announces, if it does. */
  function Announced(d: Payload): Option<U32> { if SizeIndicated(d[0]) then Some(SizeOf(d)) else None }

  // ----- frame bodies -----

  /** Initiate and abort frames: command, index, sub-index and up to four bytes, zero padded. */
  function Addressed(cmd: Byte, idx: U16, sub: Byte, tail: seq<Byte>): Payload
    requires |tail| <= 4
  {
    [cmd, Low(idx), Low(High(idx)), sub] + tail + Zeros(4 - |tail|)
  }

  /** Segment frames: command and up to seven bytes, zero padded. */
  function SegmentBody(cmd: Byte, payload: seq<Byte>): Payload
    requires |payload| <= 7
  {
    [cmd] + payload + Zeros(7 - |payload|)
  }

  lemma AddressedFields(cmd: Byte, idx: U16, sub: Byte, tail: seq<Byte>)
    requires |tail| <= 4
    ensures var d := Addressed(cmd, idx, sub, tail);
            && d[0] == cmd && IndexOf(d) == idx && SubOf(d) == sub
            && d[4..4 + |tail|] == tail
            && (|tail| == 4 ==> SizeOf(d) == FromLe32(tail))
  {
    var d := Addressed(cmd, idx, sub, tail);
    assert d[4..4 + |tail|] == tail;
    LowHigh(idx);
  }

  lemma SegmentBodyFields(cmd: Byte, payload: seq<Byte>)
    requires |payload| <= 7
    ensures var d := SegmentBody(cmd, payload);
            d[0] == cmd && d[1..1 + |payload|] == payload
  {
    var d := SegmentBody(cmd, payload);
    assert d[1..1 + |payload|] == payload;
  }

  function AbortBody(idx: U16, sub: Byte, code: AbortCode): Payload {
    Addressed(CS_ABORT, idx, sub, Le32(Raw(code)))
  }

  function AbortCodeOf(d: Payload): AbortCode { FromRaw(SizeOf(d)) }

  // ----- abort codes -----

  datatype AbortCode =
    | ToggleBitNotAlternated | ProtocolTimeout | InvalidCommandSpecifier | InvalidBlockSize
    | InvalidSequenceNumber | CrcError | OutOfMemory | UnsupportedAccess | ReadWriteOnly
    | WriteReadOnly | ObjectDoesNotExist | NotMappable | PdoLengthExceeded
    | ParameterIncompatibility | InternalIncompatibility | HardwareError
    | DataTypeLengthMismatch | DataTypeLengthHigh | DataTypeLengthLow | SubindexDoesNotExist
    | InvalidValue | ValueTooHigh | ValueTooLow | MaxLessThanMin | ResourceNotAvailable
    | General | StorageError | StorageLocalControl | StorageDeviceState | NoObjectDictionary
    | NoData | Unknown(raw: U32)

  function Raw(code: AbortCode): U32 {
    match code
    case ToggleBitNotAlternated => 0x0503_0000
    case ProtocolTimeout => 0x0504_0000
    case InvalidCommandSpecifier => 0x0504_0001
    case InvalidBlockSize => 0x0504_0002
    case InvalidSequenceNumber => 0x0504_0003
    case CrcError => 0x0504_0004
    case OutOfMemory => 0x0504_0005
    case UnsupportedAccess => 0x0601_0000
    case ReadWriteOnly => 0x0601_0001
    case WriteReadOnly => 0x0601_0002
    case ObjectDoesNotExist => 0x0602_0000
    case NotMappable => 0x0604_0041
    case PdoLengthExceeded => 0x0604_0042
    case ParameterIncompatibility => 0x0604_0043
    case InternalIncompatibility => 0x0604_0047
    case HardwareError => 0x0606_0000
    case DataTypeLengthMismatch => 0x0607_0010
    case DataTypeLengthHigh => 0x0607_0012
    case DataTypeLengthLow => 0x0607_0013
    case SubindexDoesNotExist => 0x0609_0011
    case InvalidValue => 0x0609_0030
    case ValueTooHigh => 0x0609_0031
    case ValueTooLow => 0x0609_0032
    case MaxLessThanMin => 0x0609_0036
    case ResourceNotAvailable => 0x060A_0023
    case General => 0x0800_0000
    case StorageError => 0x0800_0020
    case StorageLocalControl => 0x0800_0021
    case StorageDeviceState => 0x0800_0022
    case NoObjectDictionary => 0x0800_0023
    case NoData => 0x0800_0024
    case Unknown(raw) => raw
  }

  function FromRaw(raw: U32): AbortCode {
    if raw == 0x0503_0000 then ToggleBitNotAlternated
    else if raw == 0x0504_0000 then ProtocolTimeout
    else if raw == 0x0504_0001 then InvalidCommandSpecifier
    else if raw == 0x0504_0002 then InvalidBlockSize
    else if raw == 0x0504_0003 then InvalidSequenceNumber
    else if raw == 0x0504_0004 then CrcError
    else if raw == 0x0504_0005 then OutOfMemory
    else if raw == 0x0601_0000 then UnsupportedAccess
    else if raw == 0x0601_0001 then ReadWriteOnly
    else if raw == 0x0601_0002 then WriteReadOnly
    else if raw == 0x0602_0000 then ObjectDoesNotExist
    else if raw == 0x0604_0041 then NotMappable
    else if raw == 0x0604_0042 then PdoLengthExceeded
    else if raw == 0x0604_0043 then ParameterIncompatibility
    else if raw == 0x0604_0047 then InternalIncompatibility
    else if raw == 0x0606_0000 then HardwareError
    else if raw == 0x0607_0010 then DataTypeLengthMismatch
    else if raw == 0x0607_0012 then DataTypeLengthHigh
    else if raw == 0x0607_0013 then DataTypeLengthLow
    else if raw == 0x0609_0011 then SubindexDoesNotExist
    else if raw == 0x0609_0030 then InvalidValue
    else if raw == 0x0609_0031 then ValueTooHigh
    else if raw == 0x0609_0032 then ValueTooLow
    else if raw == 0x0609_0036 then MaxLessThanMin
    else if raw == 0x060A_0023 then ResourceNotAvailable
    else if raw == 0x0800_0000 then General
    else if raw == 0x0800_0020 then StorageError
    else if raw == 0x0800_0021 then StorageLocalControl
    else if raw == 0x0800_0022 then StorageDeviceState
    else if raw == 0x0800_0023 then NoObjectDictionary
    else if raw == 0x0800_0024 then NoData
    else Unknown(raw)
  }

  /** The numbers the standard assigns. */
  const LISTED: set<U32> := {
    0x0503_0000, 0x0504_0000, 0x0504_0001, 0x0504_0002, 0x0504_0003, 0x0504_0004, 0x0504_0005,
    0x0601_0000, 0x0601_0001, 0x0601_0002, 0x0602_0000, 0x0604_0041, 0x0604_0042, 0x0604_0043,
    0x0604_0047, 0x0606_0000, 0x0607_0010, 0x0607_0012, 0x0607_0013, 0x0609_0011, 0x0609_0030,
    0x0609_0031, 0x0609_0032, 0x0609_0036, 0x060A_0023, 0x0800_0000, 0x0800_0020, 0x0800_0021,
    0x0800_0022, 0x0800_0023, 0x0800_0024 }

  /** A code is canonical unless it hides a listed number under `Unknown`. */
  predicate Canonical(code: AbortCode) { code.Unknown? ==> code.raw !in LISTED }

  /** Every number survives the trip through the enumeration, and every code survives
      the trip over the wire exactly when it is canonical. */
  lemma AbortCodeRoundTrip(raw: U32, code: AbortCode, idx: U16, sub: Byte)
    ensures Raw(FromRaw(raw)) == raw
    ensures AbortCodeOf(AbortBody(idx, sub, code)) == code <==> Canonical(code)
  {
    hide Raw, FromRaw, AbortBody, AbortCodeOf;
    RawRoundTrip(raw);
    AbortBodyFields(idx, sub, code);
    CodeRoundTrip(code);
  }

  lemma CodeRoundTrip(code: AbortCode)
    ensures FromRaw(Raw(code)) == code <==> Canonical(code)
  {
    if code.Unknown? {
      UnknownIffUnlisted(code.raw);
      RawRoundTrip(code.raw);
    }
  }

  lemma RawRoundTrip(raw: U32)
    ensures Raw(FromRaw(raw)) == raw
  {
  }

  lemma UnknownIffUnlisted(raw: U32)
    ensures FromRaw(raw).Unknown? <==> raw !in LISTED
  {
  }

  lemma AbortBodyFields(idx: U16, sub: Byte, code: AbortCode)
    ensures var d := AbortBody(idx, sub, code);
            && Specifier(d[0]) == CS_ABORT && IndexOf(d) == idx && SubOf(d) == sub
            && AbortCodeOf(d) == FromRaw(Raw(code))
  {
    AddressedFields(CS_ABORT, idx, sub, Le32(Raw(code)));
    Le32RoundTrip(Raw(code));
  }
}
