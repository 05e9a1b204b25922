/** The client as it is built: contexts with a byte position, a toggle bit and a
    phase, taken out of the object and put back on every frame. Every method is
    proved to do what `ClientSpec` says. */
module Client {
  import opened Segments
  import opened Wire
  import Spec = ClientSpec
  import opened ClientSpec

  datatype UploadPhase = AwaitingInit | AwaitingSegment

  datatype DownloadPhase = AwaitingAck(expedited: bool) | AwaitingSegmentAck(last: bool)

  datatype State =
    | Quiet
    | Uploading(node: Byte, idx: U16, sub: Byte, received: seq<Byte>, expectedLen: Option<U32>,
                nextToggle: bool, uploadPhase: UploadPhase)
    | Downloading(node: Byte, idx: U16, sub: Byte, data: seq<Byte>, sentPos: nat,
                  nextToggle: bool, downloadPhase: DownloadPhase)

  class SdoClient {
    const timeout: nat
    var state: State
    var pendingTx: Option<SdoFrame>
    var deadline: Option<nat>
    /** Segments accepted by an upload, or acknowledged by a download. */
    ghost var moved: nat

    /** Byte position, toggle and phase are functions of the segments moved: a download
        never sends past its data and knows when the segment on the wire is the last. */
    ghost predicate Valid()
      reads this
    {
      match state
      case Quiet => true
      case Uploading(_, _, _, received, expectedLen, nextToggle, phase) =>
        && nextToggle == Parity(moved)
        && (phase.AwaitingInit? ==> moved == 0 && received == [] && expectedLen == None)
      case Downloading(_, _, _, data, sentPos, nextToggle, phase) =>
        && data != []
        && match phase
           case AwaitingAck(expedited) => sentPos == 0 && !nextToggle && expedited == (|data| <= 4)
           case AwaitingSegmentAck(last) =>
             && sentPos == Least(7 * moved + 7, |data|)
             && nextToggle == Parity(moved + 1) && last == LastChunk(data, moved)
    }

    ghost function View(): Client
      reads this
    {
      var exchange :=
        match state
        case Quiet => Rest
        case Uploading(node, idx, sub, received, expectedLen, _, phase) =>
          if phase.AwaitingInit? then UploadInit(node, idx, sub)
          else UploadSegments(node, idx, sub, received, moved, expectedLen)
        case Downloading(node, idx, sub, data, _, _, phase) =>
          if phase.AwaitingAck? then DownloadInit(node, idx, sub, data)
          else DownloadSegments(node, idx, sub, data, moved);
      Spec.Client(timeout, exchange, pendingTx, deadline)
    }

    constructor (timeout: nat)
      ensures Valid() && View() == Spec.Client(timeout, Rest, None, None)
    {
      this.timeout := timeout;
      state, pendingTx, deadline, moved := Quiet, None, None, 0;
    }

    method BeginUpload(node: Byte, idx: U16, sub: Byte, now: nat) returns (error: Option<Error>)
      requires Valid()
      modifies this
      ensures Valid() && (View(), error) == old(View()).BeginUpload(node, idx, sub, now)
    {
      if node == 0 || node > 127 {
        return Some(InvalidArgument);
      }
      if !state.Quiet? {
        return Some(Busy);
      }
      QueueRequest(node, InitUploadRequest(idx, sub), now);
      state := Uploading(node, idx, sub, [], None, false, AwaitingInit);
      moved := 0;
      error := None;
    }

    method BeginDownload(node: Byte, idx: U16, sub: Byte, data: seq<Byte>, now: nat) returns (error: Option<Error>)
      requires Valid()
      modifies this
      ensures Valid() && (View(), error) == old(View()).BeginDownload(node, idx, sub, data, now)
    {
      if node == 0 || node > 127 || data == [] {
        return Some(InvalidArgument);
      }
      if !state.Quiet? {
        return Some(Busy);
      }
      QueueRequest(node, InitDownloadRequest(idx, sub, data), now);
      state := Downloading(node, idx, sub, data, 0, false, AwaitingAck(|data| <= 4));
      moved := 0;
      error := None;
    }

    method PollTransmit() returns (frame: Option<SdoFrame>)
      requires Valid()
      modifies this
      ensures Valid() && frame == old(View().tx) && View() == old(View()).(tx := None)
    {
      frame := pendingTx;
      pendingTx := None;
    }

    method HandleTimeout(now: nat) returns (result: Result)
      requires Valid()
      modifies this
      ensures Valid() && (View(), result) == old(View()).HandleTimeout(now)
    {
      if deadline.None? || now < deadline.value {
        return Pending;
      }
      Abort(ProtocolTimeout);
      result := Failed(ClientAborted(ProtocolTimeout));
    }

    method HandleFrame(frame: SdoFrame, now: nat) returns (result: Result)
      requires Valid()
      modifies this
      ensures Valid() && (View(), result) == old(View()).Handle(frame, now)
    {
      result := Pending;
      var node := NodeOfTsdo(frame.cobId);
      if node.None? {
        return;
      }
      var d := frame.data;
      if Specifier(d[0]) == CS_ABORT {
        if !state.Quiet? && state.node == node.value && state.idx == IndexOf(d) && state.sub == SubOf(d) {
          ClearTransfer();
          result := Failed(ServerAborted(AbortCodeOf(d)));
        }
        return;
      }
      if state.Uploading? {
        result := AdvanceUpload(node.value, d, now);
      } else if state.Downloading? {
        result := AdvanceDownload(node.value, d, now);
      }
    }

    method Abort(code: AbortCode)
      requires Valid()
      modifies this
      ensures Valid() && View() == old(View()).AbortWith(code)
    {
      if !state.Quiet? {
        QueueAbort(state.node, state.idx, state.sub, code);
      }
    }

    // ----- state-machine arms -----

    method AdvanceUpload(frameNode: Byte, d: Payload, now: nat) returns (result: Result)
      requires Valid() && state.Uploading?
      modifies this
      ensures Valid() && (View(), result) == old(View()).AdvanceUpload(frameNode, d, now)
    {
      result := Pending;
      var Uploading(node, idx, sub, received, expectedLen, nextToggle, phase) := state;
      var cmd := d[0];
      if frameNode != node {
        return;
      }
      if phase.AwaitingInit? {
        if Specifier(cmd) != SCS_INIT_UPLOAD || IndexOf(d) != idx || SubOf(d) != sub {
          return;
        }
        if Expedited(cmd) {
          ClearTransfer();
          result := Done(UploadCompleted(d[4..4 + ExpeditedLength(cmd)]));
        } else {
          var expected := if SizeIndicated(cmd) then Some(SizeOf(d)) else None;
          QueueRequest(node, UploadSegmentRequest(nextToggle), now);
          state := Uploading(node, idx, sub, received, expected, nextToggle, AwaitingSegment);
        }
      } else {
        if Specifier(cmd) != SCS_UPLOAD_SEGMENT {
          return;
        }
        if Toggle(cmd) != nextToggle {
          QueueAbort(node, idx, sub, ToggleBitNotAlternated);
          return Failed(ClientAborted(ToggleBitNotAlternated));
        }
        received := received + d[1..1 + SegmentLength(cmd)];
        if FinalSegment(cmd) {
          if expectedLen.Some? && |received| != expectedLen.value {
            QueueAbort(node, idx, sub, DataTypeLengthMismatch);
            return Failed(ClientAborted(DataTypeLengthMismatch));
          }
          ClearTransfer();
          result := Done(UploadCompleted(received));
        } else {
          QueueRequest(node, UploadSegmentRequest(!nextToggle), now);
          state := Uploading(node, idx, sub, received, expectedLen, !nextToggle, AwaitingSegment);
          moved := moved + 1;
        }
      }
    }

    method AdvanceDownload(frameNode: Byte, d: Payload, now: nat) returns (result: Result)
      requires Valid() && state.Downloading?
      modifies this
      ensures Valid() && (View(), result) == old(View()).AdvanceDownload(frameNode, d, now)
    {
      result := Pending;
      var Downloading(node, idx, sub, data, sentPos, nextToggle, phase) := state;
      var cmd := d[0];
      if frameNode != node {
        return;
      }
      match phase
      case AwaitingAck(expedited) =>
        if Specifier(cmd) != SCS_INIT_DOWNLOAD || IndexOf(d) != idx || SubOf(d) != sub {
          return;
        }
        if expedited {
          ClearTransfer();
          result := Done(DownloadCompleted);
        } else {
          moved := 0;
          QueueNextDownloadSegment(0, now);
        }
      case AwaitingSegmentAck(last) =>
        if Specifier(cmd) != SCS_DOWNLOAD_SEGMENT {
          return;
        }
        if Toggle(cmd) != !nextToggle {
          QueueAbort(node, idx, sub, ToggleBitNotAlternated);
          return Failed(ClientAborted(ToggleBitNotAlternated));
        }
        if last {
          ClearTransfer();
          result := Done(DownloadCompleted);
        } else {
          moved := moved + 1;
          QueueNextDownloadSegment(moved, now);
        }
    }

    method QueueNextDownloadSegment(ghost k: nat, now: nat)
      requires state.Downloading? && k == moved && state.data != []
      requires state.sentPos == 7 * k < |state.data| && state.nextToggle == Parity(k)
      modifies this`state, this`pendingTx, this`deadline
      ensures Valid()
      ensures View() == old(View()).Request(
        DownloadSegments(old(state.node), old(state.idx), old(state.sub), old(state.data), k),
        old(state.node), DownloadSegmentRequest(old(state.data), k), now)
    {
      var Downloading(node, idx, sub, data, sentPos, nextToggle, _) := state;
      var remaining := |data| - sentPos;
      var chunkLen := Least(remaining, 7);
      var last := remaining <= 7;
      var payload := data[sentPos..sentPos + chunkLen];
      assert payload == Chunk(data, k);
      var body := SegmentBody(SegmentCommand(CCS_DOWNLOAD_SEGMENT, nextToggle, |payload|, last), payload);
      state := Downloading(node, idx, sub, data, sentPos + chunkLen, !nextToggle, AwaitingSegmentAck(last));
      QueueRequest(node, body, now);
    }

    // ----- helpers -----

    method QueueRequest(node: Byte, body: Payload, now: nat)
      modifies this`pendingTx, this`deadline
      ensures pendingTx == Some(SdoFrame(RsdoId(node), body)) && deadline == Some(now + timeout)
    {
      pendingTx, deadline := Some(SdoFrame(RsdoId(node), body)), Some(now + timeout);
    }

    method ClearTransfer()
      modifies this`state, this`pendingTx, this`deadline
      ensures Valid() && View() == Spec.Client(timeout, Rest, None, None)
    {
      state, pendingTx, deadline := Quiet, None, None;
    }

    method QueueAbort(node: Byte, idx: U16, sub: Byte, code: AbortCode)
      modifies this`state, this`pendingTx, this`deadline
      ensures Valid()
      ensures View() == Spec.Client(timeout, Rest, Some(SdoFrame(RsdoId(node), AbortBody(idx, sub, code))), None)
    {
      pendingTx := Some(SdoFrame(RsdoId(node), AbortBody(idx, sub, code)));
      deadline, state := None, Quiet;
    }
  }
}
