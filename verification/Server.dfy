/** The server as it is built: one mutable object with a fixed buffer, a byte count
    and a toggle bit. Every method is proved to do what `ServerSpec` says. */
module Server {
  import opened Segments
  import opened Wire
  import Spec = ServerSpec
  import opened ServerSpec

  datatype State =
    | Quiet
    | Serving(idx: U16, sub: Byte, buf: array<Byte>, len: nat, sent: nat, toggle: bool)
    | Receiving(idx: U16, sub: Byte, buf: array<Byte>, len: nat, expected: Option<nat>, toggle: bool)

  class SdoServer {
    const node: Byte
    const timeout: nat
    const room: nat
    var state: State
    var pendingTx: Option<SdoFrame>
    var deadline: Option<nat>
    /** Segments moved by the transfer in progress. */
    ghost var moved: nat

    ghost function Buffers(): set<object>
      reads this
    {
      if state.Quiet? then {} else {state.buf}
    }

    /** `sent` counts whole segments and never passes `len`, `len` never passes the
        buffer, and the toggle bit is the parity of the segments moved. */
    ghost predicate Valid()
      reads this, Buffers()
    {
      match state
      case Quiet => true
      case Serving(_, _, buf, len, sent, toggle) =>
        && buf.Length == room && sent <= len <= room
        && sent == 7 * moved && toggle == Parity(moved)
      case Receiving(_, _, buf, len, _, toggle) =>
        && buf.Length == room && len <= room && toggle == Parity(moved)
    }

    /** The transfer this object stands for. */
    ghost function View(): Server
      requires Valid()
      reads this, Buffers()
    {
      var transfer :=
        match state
        case Quiet => Idle
        case Serving(idx, sub, buf, len, _, _) => Uploading(idx, sub, buf[..len], moved)
        case Receiving(idx, sub, buf, len, expected, _) => Downloading(idx, sub, buf[..len], moved, expected);
      Spec.Server(node, timeout, room, transfer, pendingTx, deadline)
    }

    constructor (node: Byte, timeout: nat, room: nat)
      ensures Valid() && View() == Spec.Server(node, timeout, room, Idle, None, None)
    {
      this.node, this.timeout, this.room := node, timeout, room;
      state, pendingTx, deadline, moved := Quiet, None, None, 0;
    }

    method PollTransmit() returns (frame: Option<SdoFrame>)
      requires Valid()
      modifies this
      ensures Valid() && frame == old(View().tx) && View() == old(View()).(tx := None)
      ensures Buffers() == old(Buffers())
    {
      frame := pendingTx;
      pendingTx := None;
    }

    method HandleTimeout(now: nat) returns (aborted: Option<AbortCode>)
      requires Valid()
      modifies this
      ensures Valid() && (View(), aborted) == old(View()).HandleTimeout(now)
      ensures Buffers() <= old(Buffers())
    {
      aborted := None;
      if deadline.None? || now < deadline.value {
        return;
      }
      if state.Quiet? {
        deadline := None;
        return;
      }
      aborted := Abort(state.idx, state.sub, ProtocolTimeout);
    }

    method HandleFrame<S>(frame: SdoFrame, now: nat, od: Dictionary<S>)
      returns (od': Dictionary<S>, aborted: Option<AbortCode>)
      requires Valid()
      modifies this, Buffers()
      ensures Valid() && Step(View(), od', aborted) == old(View()).Handle(frame, now, od)
      ensures fresh(Buffers() - old(Buffers()))
    {
      od', aborted := od, None;
      if NodeOfRsdo(frame.cobId) != Some(node) {
        return;
      }
      var cmd := frame.data[0];
      var cs := Specifier(cmd);
      if cs == CS_ABORT {
        Reset();
      } else if cs == CCS_INIT_UPLOAD {
        od', aborted := OnInitUpload(frame.data, now, od);
      } else if cs == CCS_UPLOAD_SEGMENT {
        aborted := OnUploadSegment(cmd, now, od);
      } else if cs == CCS_INIT_DOWNLOAD {
        od', aborted := OnInitDownload(frame.data, now, od);
      } else if cs == CCS_DOWNLOAD_SEGMENT {
        od', aborted := OnDownloadSegment(frame.data, now, od);
      } else {
        aborted := Abort(IndexOf(frame.data), SubOf(frame.data), InvalidCommandSpecifier);
      }
    }

    // ----- request handlers -----

    method OnInitUpload<S>(d: Payload, now: nat, od: Dictionary<S>)
      returns (od': Dictionary<S>, aborted: Option<AbortCode>)
      requires Valid()
      modifies this
      ensures Valid() && Step(View(), od', aborted) == old(View()).OnInitUpload(d, now, od)
      ensures fresh(Buffers() - old(Buffers()))
    {
      aborted := None;
      var idx, sub := IndexOf(d), SubOf(d);
      var buf := new Byte[room](_ => 0);
      var (after, reply) := od.Read(idx, sub, room);
      od' := after;
      if reply.ReadErr? {
        aborted := Abort(idx, sub, reply.code);
        return;
      }
      forall i | 0 <= i < room {
        buf[i] := reply.bytes(i);
      }
      var len := reply.len;
      if len > room {
        aborted := Abort(idx, sub, OutOfMemory);
        return;
      }
      assert buf[..len] == Fill(len, reply.bytes);
      if 1 <= len <= 4 {
        Reset();
        Queue(Addressed(InitCommand(SCS_INIT_UPLOAD, len), idx, sub, buf[..len]));
      } else {
        state := Serving(idx, sub, buf, len, 0, false);
        moved := 0;
        QueueWithDeadline(Addressed(SCS_INIT_UPLOAD + 1, idx, sub, Le32(len % TWO32)), now);
      }
    }

    method OnUploadSegment<S>(cmd: Byte, now: nat, ghost od: Dictionary<S>) returns (aborted: Option<AbortCode>)
      requires Valid()
      modifies this
      ensures Valid() && Step(View(), od, aborted) == old(View()).OnUploadSegment(cmd, now, od)
      ensures Buffers() <= old(Buffers())
    {
      hide Chunk, Toggle, SegmentBody, SegmentCommand, AbortBody, TsdoId;
      aborted := None;
      if !state.Serving? {
        aborted := Abort(0, 0, InvalidCommandSpecifier);
        return;
      }
      var Serving(idx, sub, buf, len, sent, toggle) := state;
      if Toggle(cmd) != toggle {
        aborted := Abort(idx, sub, ToggleBitNotAlternated);
        return;
      }
      var remaining := len - sent;
      var chunk := Least(remaining, 7);
      var last := remaining <= 7;
      SliceIsChunk(buf[..], len, moved);
      assert buf[..][sent..sent + chunk] == buf[sent..sent + chunk] && buf[..][..len] == buf[..len];
      var out := SegmentBody(SegmentCommand(SCS_UPLOAD_SEGMENT, toggle, chunk, last), buf[sent..sent + chunk]);
      if last {
        Reset();
        Queue(out);
      } else {
        state := Serving(idx, sub, buf, len, sent + chunk, !toggle);
        moved := moved + 1;
        QueueWithDeadline(out, now);
      }
    }

    method OnInitDownload<S>(d: Payload, now: nat, od: Dictionary<S>)
      returns (od': Dictionary<S>, aborted: Option<AbortCode>)
      requires Valid()
      modifies this
      ensures Valid() && Step(View(), od', aborted) == old(View()).OnInitDownload(d, now, od)
      ensures fresh(Buffers() - old(Buffers()))
    {
      od', aborted := od, None;
      var cmd, idx, sub := d[0], IndexOf(d), SubOf(d);
      if Expedited(cmd) {
        var len := ExpeditedLength(cmd);
        var (after, refused) := od.Write(idx, sub, d[4..4 + len]);
        od' := after;
        if refused.Some? {
          aborted := Abort(idx, sub, refused.value);
          return;
        }
        Reset();
        Queue(InitDownloadAckBody(idx, sub));
      } else {
        var expected := if SizeIndicated(cmd) then Some(SizeOf(d)) else None;
        if expected.Some? && expected.value > room {
          aborted := Abort(idx, sub, OutOfMemory);
          return;
        }
        var buf := new Byte[room](_ => 0);
        moved := 0;
        state := Receiving(idx, sub, buf, 0, expected, false);
        assert buf[..0] == [];
        QueueWithDeadline(InitDownloadAckBody(idx, sub), now);
      }
    }

    method OnDownloadSegment<S>(d: Payload, now: nat, od: Dictionary<S>)
      returns (od': Dictionary<S>, aborted: Option<AbortCode>)
      requires Valid()
      modifies this, Buffers()
      ensures Valid() && Step(View(), od', aborted) == old(View()).OnDownloadSegment(d, now, od)
      ensures Buffers() <= old(Buffers())
    {
      od', aborted := od, None;
      if !state.Receiving? {
        aborted := Abort(0, 0, InvalidCommandSpecifier);
        return;
      }
      var Receiving(idx, sub, buf, len, expected, toggle) := state;
      var cmd := d[0];
      if Toggle(cmd) != toggle {
        aborted := Abort(idx, sub, ToggleBitNotAlternated);
        return;
      }
      var n := SegmentLength(cmd);
      if len + n > room {
        aborted := Abort(idx, sub, OutOfMemory);
        return;
      }
      ghost var acc := buf[..len];
      forall i | 0 <= i < n {
        buf[len + i] := d[1 + i];
      }
      assert buf[..len + n] == acc + d[1..1 + n];
      state := Receiving(idx, sub, buf, len + n, expected, toggle);
      if FinalSegment(cmd) {
        if expected.Some? && expected.value != len + n {
          aborted := Abort(idx, sub, DataTypeLengthMismatch);
          return;
        }
        var (after, refused) := od.Write(idx, sub, buf[..len + n]);
        od' := after;
        if refused.Some? {
          aborted := Abort(idx, sub, refused.value);
          return;
        }
        Reset();
        Queue(DownloadSegmentAckBody(toggle));
      } else {
        state := Receiving(idx, sub, buf, len + n, expected, !toggle);
        moved := moved + 1;
        QueueWithDeadline(DownloadSegmentAckBody(toggle), now);
      }
    }

    // ----- helpers -----

    method Reset()
      modifies this
      ensures Valid() && state.Quiet? && pendingTx == None && deadline == None
    {
      state, deadline, pendingTx := Quiet, None, None;
    }

    method Queue(body: Payload)
      requires Valid()
      modifies this`pendingTx, this`deadline
      ensures Valid() && View() == old(View()).Queue(body)
    {
      pendingTx, deadline := Some(SdoFrame(TsdoId(node), body)), None;
    }

    method QueueWithDeadline(body: Payload, now: nat)
      requires Valid()
      modifies this`pendingTx, this`deadline
      ensures Valid() && View() == old(View()).QueueWithDeadline(body, now)
    {
      pendingTx := Some(SdoFrame(TsdoId(node), body));
      deadline := if timeout > 0 then Some(now + timeout) else None;
    }

    method Abort(idx: U16, sub: Byte, code: AbortCode) returns (aborted: Option<AbortCode>)
      modifies this
      ensures Valid() && state.Quiet? && deadline == None && aborted == Some(code)
      ensures pendingTx == Some(SdoFrame(TsdoId(node), AbortBody(idx, sub, code)))
    {
      state, deadline := Quiet, None;
      pendingTx := Some(SdoFrame(TsdoId(node), AbortBody(idx, sub, code)));
      aborted := Some(code);
    }
  }
}
