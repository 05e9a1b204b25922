/** What an SDO server does with each frame, on values. A transfer is described by
    what it means - the value being served and how many segments are out, or the
    bytes accepted and in how many segments - and not by buffers and toggle bits. */
module ServerSpec {
  import opened Segments
  import opened Wire

  /** What `read` leaves behind: a reported length, which nothing ties to the buffer,
      and the byte now at each buffer position. */
  datatype ReadReply = ReadOk(len: nat, bytes: nat -> Byte) | ReadErr(code: AbortCode)

  /** Any object dictionary: a state and its two entry points, honest or not. */
  datatype Dictionary<!S> = Dictionary(
    state: S,
    reader: (S, U16, Byte, nat) -> (S, ReadReply),
    writer: (S, U16, Byte, seq<Byte>) -> (S, Option<AbortCode>))
  {
    function Read(idx: U16, sub: Byte, room: nat): (Dictionary<S>, ReadReply) {
      var (s, reply) := reader(state, idx, sub, room);
      (this.(state := s), reply)
    }

    function Write(idx: U16, sub: Byte, data: seq<Byte>): (Dictionary<S>, Option<AbortCode>) {
      var (s, refused) := writer(state, idx, sub, data);
      (this.(state := s), refused)
    }
  }

  /** The first `len` bytes a read left in the buffer. */
  function Fill(len: nat, bytes: nat -> Byte): (v: seq<Byte>)
    ensures |v| == len && forall i :: 0 <= i < len ==> v[i] == bytes(i)
  {
    seq<Byte>(len, i requires 0 <= i => bytes(i))
  }

  // ----- the server -----

  datatype Transfer =
    | Idle
    | Uploading(idx: U16, sub: Byte, value: seq<Byte>, served: nat)
    | Downloading(idx: U16, sub: Byte, acc: seq<Byte>, count: nat, expected: Option<nat>)

  /** Outcome of one step: the new server, the dictionary after the step and the
      code of the abort the server raised, if it did. */
  datatype Step<!S> = Step(server: Server, od: Dictionary<S>, aborted: Option<AbortCode>)

  function InitUploadBody(idx: U16, sub: Byte, value: seq<Byte>): Payload {
    if 1 <= |value| <= 4
    then Addressed(InitCommand(SCS_INIT_UPLOAD, |value|), idx, sub, value)
    else Addressed(SCS_INIT_UPLOAD + 1, idx, sub, Le32(|value| % TWO32))
  }

  function UploadSegmentBody(value: seq<Byte>, k: nat): Payload {
    var chunk := Chunk(value, k);
    SegmentBody(SegmentCommand(SCS_UPLOAD_SEGMENT, Parity(k), |chunk|, LastChunk(value, k)), chunk)
  }

  function InitDownloadAckBody(idx: U16, sub: Byte): Payload {
    Addressed(SCS_INIT_DOWNLOAD, idx, sub, [])
  }

  function DownloadSegmentAckBody(toggle: bool): Payload {
    SegmentBody(SCS_DOWNLOAD_SEGMENT + (if toggle then TOGGLE_BIT else 0), [])
  }

  datatype Server = Server(
    node: Byte, timeout: nat, room: nat,
    transfer: Transfer, tx: Option<SdoFrame>, deadline: Option<nat>)
  {
    function Reset(): Server { this.(transfer := Idle, tx := None, deadline := None) }

    function Queue(body: Payload): Server {
      this.(tx := Some(SdoFrame(TsdoId(node), body)), deadline := None)
    }

    function QueueWithDeadline(body: Payload, now: nat): Server {
      this.(tx := Some(SdoFrame(TsdoId(node), body)),
            deadline := if timeout > 0 then Some(now + timeout) else None)
    }

    function Abort(idx: U16, sub: Byte, code: AbortCode): Server {
      this.(transfer := Idle, deadline := None, tx := Some(SdoFrame(TsdoId(node), AbortBody(idx, sub, code))))
    }

    function OnInitUpload<S>(d: Payload, now: nat, od: Dictionary<S>): Step<S> {
      var idx, sub := IndexOf(d), SubOf(d);
      var (od', reply) := od.Read(idx, sub, room);
      match reply
      case ReadErr(code) => Step(Abort(idx, sub, code), od', Some(code))
      case ReadOk(len, bytes) =>
        if len > room then Step(Abort(idx, sub, OutOfMemory), od', Some(OutOfMemory))
        else
          var value := Fill(len, bytes);
          if 1 <= len <= 4
          then Step(Reset().Queue(InitUploadBody(idx, sub, value)), od', None)
          else Step(this.(transfer := Uploading(idx, sub, value, 0))
                    .QueueWithDeadline(InitUploadBody(idx, sub, value), now), od', None)
    }

    function OnUploadSegment<S>(cmd: Byte, now: nat, od: Dictionary<S>): Step<S> {
      if !transfer.Uploading? then Step(Abort(0, 0, InvalidCommandSpecifier), od, Some(InvalidCommandSpecifier))
      else if Toggle(cmd) != Parity(transfer.served)
      then Step(Abort(transfer.idx, transfer.sub, ToggleBitNotAlternated), od, Some(ToggleBitNotAlternated))
      else
        var body := UploadSegmentBody(transfer.value, transfer.served);
        if LastChunk(transfer.value, transfer.served)
        then Step(Reset().Queue(body), od, None)
        else Step(this.(transfer := transfer.(served := transfer.served + 1)).QueueWithDeadline(body, now), od, None)
    }

    function OnInitDownload<S>(d: Payload, now: nat, od: Dictionary<S>): Step<S> {
      var cmd, idx, sub := d[0], IndexOf(d), SubOf(d);
      if Expedited(cmd) then
        var (od', refused) := od.Write(idx, sub, d[4..4 + ExpeditedLength(cmd)]);
        match refused
        case Some(code) => Step(Abort(idx, sub, code), od', Some(code))
        case None => Step(Reset().Queue(InitDownloadAckBody(idx, sub)), od', None)
      else
        var expected := if SizeIndicated(cmd) then Some(SizeOf(d)) else None;
        if expected.Some? && expected.value > room
        then Step(Abort(idx, sub, OutOfMemory), od, Some(OutOfMemory))
        else Step(this.(transfer := Downloading(idx, sub, [], 0, expected))
                  .QueueWithDeadline(InitDownloadAckBody(idx, sub), now), od, None)
    }

    function OnDownloadSegment<S>(d: Payload, now: nat, od: Dictionary<S>): Step<S> {
      var cmd := d[0];
      if !transfer.Downloading? then Step(Abort(0, 0, InvalidCommandSpecifier), od, Some(InvalidCommandSpecifier))
      else
        var Downloading(idx, sub, acc, count, expected) := transfer;
        if Toggle(cmd) != Parity(count)
        then Step(Abort(idx, sub, ToggleBitNotAlternated), od, Some(ToggleBitNotAlternated))
        else if |acc| + SegmentLength(cmd) > room
        then Step(Abort(idx, sub, OutOfMemory), od, Some(OutOfMemory))
        else
          var all := acc + d[1..1 + SegmentLength(cmd)];
          var ack := DownloadSegmentAckBody(Parity(count));
          if !FinalSegment(cmd)
          then Step(this.(transfer := Downloading(idx, sub, all, count + 1, expected)).QueueWithDeadline(ack, now),
            od, None)
          else if expected.Some? && expected.value != |all|
          then Step(Abort(idx, sub, DataTypeLengthMismatch), od, Some(DataTypeLengthMismatch))
          else
            var (od', refused) := od.Write(idx, sub, all);
            match refused
            case Some(code) => Step(Abort(idx, sub, code), od', Some(code))
            case None => Step(Reset().Queue(ack), od', None)
    }

    function Handle<S>(f: SdoFrame, now: nat, od: Dictionary<S>): Step<S> {
      if NodeOfRsdo(f.cobId) != Some(node) then Step(this, od, None)
      else
        var cs := Specifier(f.data[0]);
        if cs == CS_ABORT then Step(Reset(), od, None)
        else if cs == CCS_INIT_UPLOAD then OnInitUpload(f.data, now, od)
        else if cs == CCS_UPLOAD_SEGMENT then OnUploadSegment(f.data[0], now, od)
        else if cs == CCS_INIT_DOWNLOAD then OnInitDownload(f.data, now, od)
        else if cs == CCS_DOWNLOAD_SEGMENT then OnDownloadSegment(f.data, now, od)
        else Step(Abort(IndexOf(f.data), SubOf(f.data), InvalidCommandSpecifier), od, Some(InvalidCommandSpecifier))
    }

    function HandleTimeout(now: nat): (Server, Option<AbortCode>) {
      if deadline.None? || now < deadline.value then (this, None)
      else if transfer.Idle? then (this.(deadline := None), None)
      else (Abort(transfer.idx, transfer.sub, ProtocolTimeout), Some(ProtocolTimeout))
    }
  }

  lemma ConfigurationIsFixed<S>(v: Server, f: SdoFrame, now: nat, od: Dictionary<S>)
    ensures var v' := v.Handle(f, now, od).server;
            v'.node == v.node && v'.timeout == v.timeout && v'.room == v.room
  {
  }
}
