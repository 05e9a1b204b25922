/** What an SDO client does with each call, on values. */
module ClientSpec {
  import opened Segments
  import opened Wire

  datatype Outcome = UploadCompleted(data: seq<Byte>) | DownloadCompleted

  datatype Error = ServerAborted(code: AbortCode) | ClientAborted(code: AbortCode) | Busy | InvalidArgument

  /** `Ok(None)`, `Ok(Some(outcome))` and `Err(error)`. */
  datatype Result = Pending | Done(outcome: Outcome) | Failed(error: Error)

  /** `count` segments of an upload have been accepted; segment `acked` of a
      download is on the wire and those before it have been acknowledged. */
  datatype Exchange =
    | Rest
    | UploadInit(node: Byte, idx: U16, sub: Byte)
    | UploadSegments(node: Byte, idx: U16, sub: Byte, received: seq<Byte>, count: nat, expected: Option<U32>)
    | DownloadInit(node: Byte, idx: U16, sub: Byte, data: seq<Byte>)
    | DownloadSegments(node: Byte, idx: U16, sub: Byte, data: seq<Byte>, acked: nat)

  predicate ValidNode(node: Byte) { 1 <= node <= 127 }

  function InitUploadRequest(idx: U16, sub: Byte): Payload { Addressed(CCS_INIT_UPLOAD, idx, sub, []) }

  function UploadSegmentRequest(toggle: bool): Payload {
    SegmentBody(CCS_UPLOAD_SEGMENT + (if toggle then TOGGLE_BIT else 0), [])
  }

  function InitDownloadRequest(idx: U16, sub: Byte, data: seq<Byte>): Payload
    requires data != []
  {
    if |data| <= 4
    then Addressed(InitCommand(CCS_INIT_DOWNLOAD, |data|), idx, sub, data)
    else Addressed(CCS_INIT_DOWNLOAD + 1, idx, sub, Le32(|data| % TWO32))
  }

  function DownloadSegmentRequest(data: seq<Byte>, k: nat): Payload {
    var chunk := Chunk(data, k);
    SegmentBody(SegmentCommand(CCS_DOWNLOAD_SEGMENT, Parity(k), |chunk|, LastChunk(data, k)), chunk)
  }

  datatype Client = Client(timeout: nat, exchange: Exchange, tx: Option<SdoFrame>, deadline: Option<nat>)
  {
    function Request(exchange: Exchange, node: Byte, body: Payload, now: nat): Client {
      Client(timeout, exchange, Some(SdoFrame(RsdoId(node), body)), Some(now + timeout))
    }

    function Clear(): Client { Client(timeout, Rest, None, None) }

    function AbortWith(code: AbortCode): Client {
      if exchange.Rest? then this
      else Client(timeout, Rest, Some(SdoFrame(RsdoId(exchange.node), AbortBody(exchange.idx, exchange.sub, code))),
        None)
    }

    function BeginUpload(node: Byte, idx: U16, sub: Byte, now: nat): (Client, Option<Error>) {
      if !ValidNode(node) then (this, Some(InvalidArgument))
      else if !exchange.Rest? then (this, Some(Busy))
      else (Request(UploadInit(node, idx, sub), node, InitUploadRequest(idx, sub), now), None)
    }

    function BeginDownload(node: Byte, idx: U16, sub: Byte, data: seq<Byte>, now: nat): (Client, Option<Error>) {
      if !ValidNode(node) then (this, Some(InvalidArgument))
      else if data == [] then (this, Some(InvalidArgument))
      else if !exchange.Rest? then (this, Some(Busy))
      else (Request(DownloadInit(node, idx, sub, data), node, InitDownloadRequest(idx, sub, data), now), None)
    }

    function HandleTimeout(now: nat): (Client, Result) {
      if deadline.None? || now < deadline.value then (this, Pending)
      else (AbortWith(ProtocolTimeout), Failed(ClientAborted(ProtocolTimeout)))
    }

    function AdvanceUpload(frameNode: Byte, d: Payload, now: nat): (Client, Result)
      requires exchange.UploadInit? || exchange.UploadSegments?
    {
      var cmd := d[0];
      if frameNode != exchange.node then (this, Pending)
      else
        match exchange
        case UploadInit(node, idx, sub) =>
          if Specifier(cmd) != SCS_INIT_UPLOAD then (this, Pending)
          else if IndexOf(d) != idx || SubOf(d) != sub then (this, Pending)
          else if Expedited(cmd) then (Clear(), Done(UploadCompleted(d[4..4 + ExpeditedLength(cmd)])))
          else
            var expected := if SizeIndicated(cmd) then Some(SizeOf(d)) else None;
            (Request(UploadSegments(node, idx, sub, [], 0, expected), node, UploadSegmentRequest(false), now), Pending)
        case UploadSegments(node, idx, sub, received, count, expected) =>
          if Specifier(cmd) != SCS_UPLOAD_SEGMENT then (this, Pending)
          else if Toggle(cmd) != Parity(count)
          then (AbortWith(ToggleBitNotAlternated), Failed(ClientAborted(ToggleBitNotAlternated)))
          else
            var all := received + d[1..1 + SegmentLength(cmd)];
            if !FinalSegment(cmd)
            then (Request(UploadSegments(node, idx, sub, all, count + 1, expected), node,
                          UploadSegmentRequest(Parity(count + 1)), now), Pending)
            else if expected.Some? && expected.value != |all|
            then (AbortWith(DataTypeLengthMismatch), Failed(ClientAborted(DataTypeLengthMismatch)))
            else (Clear(), Done(UploadCompleted(all)))
    }

    function AdvanceDownload(frameNode: Byte, d: Payload, now: nat): (Client, Result)
      requires exchange.DownloadInit? || exchange.DownloadSegments?
    {
      var cmd := d[0];
      if frameNode != exchange.node then (this, Pending)
      else
        match exchange
        case DownloadInit(node, idx, sub, data) =>
          if Specifier(cmd) != SCS_INIT_DOWNLOAD then (this, Pending)
          else if IndexOf(d) != idx || SubOf(d) != sub then (this, Pending)
          else if |data| <= 4 then (Clear(), Done(DownloadCompleted))
          else (Request(DownloadSegments(node, idx, sub, data, 0), node, DownloadSegmentRequest(data, 0), now), Pending)
        case DownloadSegments(node, idx, sub, data, acked) =>
          if Specifier(cmd) != SCS_DOWNLOAD_SEGMENT then (this, Pending)
          else if Toggle(cmd) != Parity(acked)
          then (AbortWith(ToggleBitNotAlternated), Failed(ClientAborted(ToggleBitNotAlternated)))
          else if LastChunk(data, acked) then (Clear(), Done(DownloadCompleted))
          else (Request(DownloadSegments(node, idx, sub, data, acked + 1), node,
                        DownloadSegmentRequest(data, acked + 1), now), Pending)
    }

    predicate MatchesInFlight(frameNode: Byte, d: Payload) {
      !exchange.Rest? && exchange.node == frameNode && exchange.idx == IndexOf(d) && exchange.sub == SubOf(d)
    }

    function Handle(f: SdoFrame, now: nat): (Client, Result) {
      match NodeOfTsdo(f.cobId)
      case None => (this, Pending)
      case Some(frameNode) =>
        if Specifier(f.data[0]) == CS_ABORT then
          if MatchesInFlight(frameNode, f.data)
          then (Clear(), Failed(ServerAborted(AbortCodeOf(f.data))))
          else (this, Pending)
        else
          match exchange
          case Rest => (this, Pending)
          case UploadInit(_, _, _) => AdvanceUpload(frameNode, f.data, now)
          case UploadSegments(_, _, _, _, _, _) => AdvanceUpload(frameNode, f.data, now)
          case DownloadInit(_, _, _, _) => AdvanceDownload(frameNode, f.data, now)
          case DownloadSegments(_, _, _, _, _) => AdvanceDownload(frameNode, f.data, now)
    }
  }
}
