/** The server over whole runs, against any client, any clock and any dictionary. */
module ServerRuns {
  import opened Segments
  import opened Wire
  import opened ServerSpec

  datatype Event = Frame(frame: SdoFrame, now: nat) | Timer(now: nat) | Poll

  datatype World<!S> = World(server: Server, od: Dictionary<S>)

  function Apply<S>(w: World<S>, e: Event): World<S> {
    match e
    case Frame(f, now) =>
      var step := w.server.Handle(f, now, w.od);
      World(step.server, step.od)
    case Timer(now) => World(w.server.HandleTimeout(now).0, w.od)
    case Poll => World(w.server.(tx := None), w.od)
  }

  function Play<S>(w: World<S>, es: seq<Event>): World<S> {
    if es == [] then w else Apply(Play(w, Front(es)), Final(es))
  }

  /** A server as `SdoServer::new` makes it. */
  ghost predicate Fresh(v: Server) { v.transfer == Idle && v.tx == None && v.deadline == None }

  predicate ForMe(e: Event, node: Byte) { e.Frame? && NodeOfRsdo(e.frame.cobId) == Some(node) }

  /** When a frame last came in for this node. */
  function LastTime(es: seq<Event>, node: Byte): nat {
    if es == [] then 0 else if ForMe(Final(es), node) then Final(es).now else LastTime(Front(es), node)
  }

  // ----- deadlines -----

  function Due(v: Server, last: nat): Option<nat> {
    if v.transfer != Idle && v.timeout > 0 then Some(last + v.timeout) else None
  }

  /** In every reachable state a deadline is pending exactly when a transfer is open and
      timeouts are on, and it runs from the last frame that came in for this node:
      frames for others never extend it. */
  lemma {:induction false} DeadlineDiscipline<S>(w: World<S>, es: seq<Event>)
    requires Fresh(w.server)
    ensures var v := Play(w, es).server;
            v.node == w.server.node && v.timeout == w.server.timeout && v.room == w.server.room
    ensures Play(w, es).server.deadline == Due(Play(w, es).server, LastTime(es, w.server.node))
    decreases |es|
  {
    hide Apply;
    if es != [] {
      DeadlineDiscipline(w, Front(es));
      DeadlineStep(Play(w, Front(es)), Final(es), LastTime(Front(es), w.server.node));
    }
  }

  lemma DeadlineStep<S>(w: World<S>, e: Event, last: nat)
    requires w.server.deadline == Due(w.server, last)
    ensures var v := Apply(w, e).server;
            && v.node == w.server.node && v.timeout == w.server.timeout && v.room == w.server.room
            && v.deadline == Due(v, if ForMe(e, w.server.node) then e.now else last)
  {
    hide Specifier, Toggle, Expedited, SizeIndicated, ExpeditedLength, SegmentLength, FinalSegment,
      NodeOfRsdo, InitUploadBody, UploadSegmentBody, InitDownloadAckBody, DownloadSegmentAckBody, AbortBody,
      LastChunk, IndexOf, SizeOf, Fill;
  }

  /** The object an abort names: for a segment the transfer of its kind that is open, or 0:0
      when none is; otherwise the object of the frame itself. */
  function Blamed(v: Server, d: Payload): (U16, Byte) {
    var cs := Specifier(d[0]);
    if cs == CCS_UPLOAD_SEGMENT then if v.transfer.Uploading? then (v.transfer.idx, v.transfer.sub) else (0, 0)
    else if cs == CCS_DOWNLOAD_SEGMENT then if v.transfer.Downloading? then (v.transfer.idx, v.transfer.sub) else (0, 0)
    else (IndexOf(d), SubOf(d))
  }

  /** An abort the server raises, on a frame or on its timer, leaves it idle, without a
      deadline and with exactly that abort queued, under its own identifier and for the
      object in question. On the timer it is raised exactly when the deadline of an open
      transfer has come. */
  lemma AbortsAreQueued<S>(v: Server, f: SdoFrame, now: nat, od: Dictionary<S>)
    ensures var step := v.Handle(f, now, od);
            var (idx, sub) := Blamed(v, f.data);
            step.aborted.Some? ==>
              && step.server == v.Abort(idx, sub, step.aborted.value)
              && step.server.transfer == Idle && step.server.deadline == None
              && step.server.tx == Some(SdoFrame(TsdoId(v.node), AbortBody(idx, sub, step.aborted.value)))
              && AbortCodeOf(step.server.tx.value.data) == FromRaw(Raw(step.aborted.value))
    ensures var (v', aborted) := v.HandleTimeout(now);
            && (aborted.Some? <==> v.transfer != Idle && v.deadline.Some? && now >= v.deadline.value)
            && (aborted.Some? ==>
                  && aborted.value == ProtocolTimeout && v' == v.Abort(v.transfer.idx, v.transfer.sub, ProtocolTimeout)
                  && v'.tx == Some(SdoFrame(TsdoId(v.node),
                    AbortBody(v.transfer.idx, v.transfer.sub, ProtocolTimeout))))
  {
    hide Raw, FromRaw, AbortBody, AbortCodeOf, Specifier, Toggle, Expedited, SizeIndicated, ExpeditedLength,
      SegmentLength, FinalSegment, NodeOfRsdo, IndexOf, SizeOf, LastChunk, Fill;
    var step := v.Handle(f, now, od);
    if step.aborted.Some? {
      var (idx, sub) := Blamed(v, f.data);
      AbortBodyFields(idx, sub, step.aborted.value);
    }
  }

  /** When the server aborts on a frame for its node, and with which code, by the command in
      the top three bits: a segment finds no transfer of its kind open, or comes out of turn,
      or finds no room, or completes to another size than announced; the dictionary refuses;
      the value or the announced size does not fit; or the command is none the server knows. */
  lemma AbortsIff<S>(v: Server, f: SdoFrame, now: nat, od: Dictionary<S>)
    requires NodeOfRsdo(f.cobId) == Some(v.node)
    ensures var step, d, t := v.Handle(f, now, od), f.data, v.transfer;
            var len := 7 - d[0] / 2 % 8;
            d[0] / 0x20 == 0 ==>
              step.aborted ==
                if !t.Downloading? then Some(InvalidCommandSpecifier)
                else if (d[0] / 0x10 % 2 == 1) != (t.count % 2 == 1) then Some(ToggleBitNotAlternated)
                else if |t.acc| + len > v.room then Some(OutOfMemory)
                else if d[0] % 2 == 0 then None
                else if t.expected.Some? && t.expected.value != |t.acc| + len then Some(DataTypeLengthMismatch)
                else od.Write(t.idx, t.sub, t.acc + d[1..1 + len]).1
    ensures var step, d := v.Handle(f, now, od), f.data;
            d[0] / 0x20 == 1 ==>
              step.aborted ==
                if d[0] / 2 % 2 == 1
                then od.Write(IndexOf(d), SubOf(d), if d[0] % 2 == 1 then d[4..8 - d[0] / 4 % 4] else d[4..8]).1
                else if d[0] % 2 == 1 && SizeOf(d) > v.room then Some(OutOfMemory)
                else None
    ensures var step, d := v.Handle(f, now, od), f.data;
            var reply := od.Read(IndexOf(d), SubOf(d), v.room).1;
            d[0] / 0x20 == 2 ==>
              step.aborted ==
                if reply.ReadErr? then Some(reply.code) else if reply.len > v.room then Some(OutOfMemory) else None
    ensures var step, d, t := v.Handle(f, now, od), f.data, v.transfer;
            d[0] / 0x20 == 3 ==>
              step.aborted ==
                if !t.Uploading? then Some(InvalidCommandSpecifier)
                else if (d[0] / 0x10 % 2 == 1) != (t.served % 2 == 1) then Some(ToggleBitNotAlternated)
                else None
    ensures f.data[0] / 0x20 == 4 ==> v.Handle(f, now, od) == Step(v.Reset(), od, None)
    ensures var d, code := f.data, InvalidCommandSpecifier;
            d[0] / 0x20 >= 5 ==>
              v.Handle(f, now, od) == Step(v.Abort(IndexOf(d), SubOf(d), code), od, Some(code))
  {
    hide NodeOfRsdo, IndexOf, SizeOf, LastChunk, Fill, AbortBody, InitUploadBody, UploadSegmentBody,
      InitDownloadAckBody, DownloadSegmentAckBody, TsdoId;
    CommandNumber(f.data[0]);
  }

  /** Over runs: the timer aborts a transfer exactly when timeouts are on, one is open, and
      the timeout has passed since the last frame for this node. */
  lemma TimesOutIff<S>(w: World<S>, es: seq<Event>, now: nat)
    requires Fresh(w.server)
    ensures var b, due := Play(w, es).server, LastTime(es, w.server.node) + w.server.timeout;
            var (v, aborted) := b.HandleTimeout(now);
            if b.transfer != Idle && w.server.timeout > 0 && now >= due
            then aborted == Some(ProtocolTimeout) && v == b.Abort(b.transfer.idx, b.transfer.sub, ProtocolTimeout)
            else aborted == None && v == b
  {
    DeadlineDiscipline(w, es);
  }

  // ----- downloads, read off the history -----

  /** The frame bodies that came in for this node. */
  function Mine(es: seq<Event>, node: Byte): seq<Payload> {
    if es == [] then []
    else if ForMe(Final(es), node) then Mine(Front(es), node) + [Final(es).frame.data]
    else Mine(Front(es), node)
  }

  /** A body that opens a segmented download of a size that fits. */
  predicate Opens(d: Payload, room: nat) {
    Specifier(d[0]) == CCS_INIT_DOWNLOAD && !Expedited(d[0]) && (SizeIndicated(d[0]) ==> SizeOf(d) <= room)
  }

  /** A segment with the k-th toggle. */
  predicate InTurn(d: Payload, k: nat) { Specifier(d[0]) == CCS_DOWNLOAD_SEGMENT && Toggle(d[0]) == Parity(k) }

  /** No timer call after event `j` came at or past the deadline of its moment. */
  predicate NoExpiry(es: seq<Event>, j: nat, node: Byte, timeout: nat)
    decreases |es|
  {
    |es| <= j + 1
    || (&& NoExpiry(Front(es), j, node, timeout)
        && (Final(es).Timer? && timeout > 0 ==> Final(es).now < LastTime(Front(es), node) + timeout))
  }

  function SegmentsSince(es: seq<Event>, j: nat, node: Byte): seq<Payload>
    requires j < |es|
  {
    Mine(es[j + 1..], node)
  }

  /** Event `j` opened a segmented download, and all that came in since are its
      segments: in turn, none of them final, all fitting the buffer, none too late. */
  ghost predicate OpenSince(es: seq<Event>, j: nat, v: Server) {
    && j < |es| && ForMe(es[j], v.node) && Opens(es[j].frame.data, v.room)
    && NoExpiry(es, j, v.node, v.timeout)
    && var segs := SegmentsSince(es, j, v.node);
       && (forall k :: 0 <= k < |segs| ==> InTurn(segs[k], k) && !FinalSegment(segs[k][0]))
       && |Concat(segs)| <= v.room
  }

  function DownloadSince(es: seq<Event>, j: nat, node: Byte): Transfer {
    if j < |es| && es[j].Frame? then
      var d := es[j].frame.data;
      var segs := SegmentsSince(es, j, node);
      Downloading(IndexOf(d), SubOf(d), Concat(segs), |segs|, Announced(d))
    else Idle
  }

  /** `es` is `Front(es)` and one more event, for everything read off the history. */
  lemma SinceStep(es: seq<Event>, j: nat, node: Byte)
    requires 0 <= j < |es| - 1
    ensures Front(es)[j] == es[j]
    ensures SegmentsSince(es, j, node)
         == if ForMe(Final(es), node) then SegmentsSince(Front(es), j, node) + [Final(es).frame.data]
            else SegmentsSince(Front(es), j, node)
  {
    assert Front(es[j + 1..]) == Front(es)[j + 1..];
    assert Final(es[j + 1..]) == Final(es);
  }

  /** The last event of `es` leaves the download opened at `j` open. */
  ghost predicate Continues(es: seq<Event>, j: nat, v: Server)
    requires 0 <= j < |es| - 1
  {
    var e := Final(es);
    var segs := SegmentsSince(Front(es), j, v.node);
    if ForMe(e, v.node) then
      var d := e.frame.data;
      InTurn(d, |segs|) && !FinalSegment(d[0]) && |Concat(segs)| + SegmentLength(d[0]) <= v.room
    else e.Timer? && v.timeout > 0 ==> e.now < LastTime(Front(es), v.node) + v.timeout
  }

  lemma ChainStep(es: seq<Event>, j: nat, v: Server)
    requires 0 <= j < |es| - 1
    ensures OpenSince(es, j, v) <==> OpenSince(Front(es), j, v) && Continues(es, j, v)
  {
    hide InTurn, Opens, SegmentLength, FinalSegment, NodeOfRsdo, Carried;
    SinceStep(es, j, v.node);
    var before, segs := SegmentsSince(Front(es), j, v.node), SegmentsSince(es, j, v.node);
    if ForMe(Final(es), v.node) {
      var d := Final(es).frame.data;
      ConcatStep(before, d);
      assert forall k :: 0 <= k < |before| ==> segs[k] == before[k];
      assert segs[|before|] == d;
    } else {
      assert segs == before;
    }
  }

  lemma JustOpened(es: seq<Event>, v: Server)
    requires es != []
    ensures OpenSince(es, |es| - 1, v) <==> ForMe(Final(es), v.node) && Opens(Final(es).frame.data, v.room)
    ensures SegmentsSince(es, |es| - 1, v.node) == []
  {
    assert es[|es|..] == [];
  }

  /** After a frame for this node a download is open exactly when the frame opened it
      or was its next segment. */
  lemma DownloadingAfter<S>(v: Server, f: SdoFrame, now: nat, od: Dictionary<S>)
    requires NodeOfRsdo(f.cobId) == Some(v.node)
    ensures var d, t := f.data, v.Handle(f, now, od).server.transfer;
            if Opens(d, v.room) then t == Downloading(IndexOf(d), SubOf(d), [], 0, Announced(d))
            else if && v.transfer.Downloading? && InTurn(d, v.transfer.count) && !FinalSegment(d[0])
                    && |v.transfer.acc| + SegmentLength(d[0]) <= v.room
            then t == v.transfer.(acc := v.transfer.acc + Carried(d), count := v.transfer.count + 1)
            else !t.Downloading?
  {
    hide Specifier, Toggle, Expedited, SizeIndicated, ExpeditedLength, FinalSegment,
      InitUploadBody, UploadSegmentBody, InitDownloadAckBody, DownloadSegmentAckBody, AbortBody, LastChunk, Fill;
  }

  lemma NothingElseMatters<S>(w: World<S>, e: Event, last: nat)
    requires !ForMe(e, w.server.node) && w.server.deadline == Due(w.server, last) && w.server.transfer.Downloading?
    ensures var t := Apply(w, e).server.transfer;
            if e.Timer? && w.server.timeout > 0 && e.now >= last + w.server.timeout then t == Idle
            else t == w.server.transfer
  {
  }

  lemma StillNotDownloading<S>(w: World<S>, e: Event)
    requires !ForMe(e, w.server.node) && !w.server.transfer.Downloading?
    ensures !Apply(w, e).server.transfer.Downloading?
  {
  }

  ghost predicate OpensNow(es: seq<Event>, v: Server)
    requires es != []
  {
    ForMe(Final(es), v.node) && Opens(Final(es).frame.data, v.room)
  }

  lemma StepFrom<S>(w: World<S>, es: seq<Event>, j: nat)
    requires 0 <= j < |es| - 1 && OpenSince(Front(es), j, w.server)
    requires w.server.transfer == DownloadSince(Front(es), j, w.server.node)
    requires w.server.deadline == Due(w.server, LastTime(Front(es), w.server.node))
    ensures var t := Apply(w, Final(es)).server.transfer;
            if Continues(es, j, w.server)
            then !OpensNow(es, w.server) && t.Downloading? && t == DownloadSince(es, j, w.server.node)
            else if OpensNow(es, w.server) then t.Downloading? && t == DownloadSince(es, |es| - 1, w.server.node)
            else !t.Downloading?
  {
    hide Server.Handle, Expedited, SizeIndicated, FinalSegment, SegmentLength, NodeOfRsdo, Carried;
    var e := Final(es);
    SinceStep(es, j, w.server.node);
    JustOpened(es, w.server);
    if ForMe(e, w.server.node) {
      DownloadingAfter(w.server, e.frame, e.now, w.od);
      ConcatStep(SegmentsSince(Front(es), j, w.server.node), e.frame.data);
    } else {
      NothingElseMatters(w, e, LastTime(Front(es), w.server.node));
      assert SegmentsSince(es, j, w.server.node) == SegmentsSince(Front(es), j, w.server.node);
    }
  }

  lemma StepFromNone<S>(w: World<S>, es: seq<Event>)
    requires es != [] && !w.server.transfer.Downloading?
    ensures var t := Apply(w, Final(es)).server.transfer;
            if OpensNow(es, w.server) then t.Downloading? && t == DownloadSince(es, |es| - 1, w.server.node)
            else !t.Downloading?
  {
    hide Server.Handle, Expedited, SizeIndicated, FinalSegment, SegmentLength, NodeOfRsdo, Carried;
    var e := Final(es);
    JustOpened(es, w.server);
    if ForMe(e, w.server.node) {
      DownloadingAfter(w.server, e.frame, e.now, w.od);
    } else {
      StillNotDownloading(w, e);
    }
  }

  /** `OpenSince` looks only at the configuration of the server. */
  lemma OpenSinceConfig(es: seq<Event>, v: Server, v': Server)
    requires v.node == v'.node && v.timeout == v'.timeout && v.room == v'.room
    ensures forall j: nat :: OpenSince(es, j, v) <==> OpenSince(es, j, v')
  {
  }

  ghost predicate ChainHolds(es: seq<Event>, v: Server, t: Transfer) {
    && (t.Downloading? <==> exists j: nat :: OpenSince(es, j, v))
    && forall j: nat :: OpenSince(es, j, v) ==> t == DownloadSince(es, j, v.node)
  }

  /** After any run a download is open exactly when the history contains its opening and,
      since then, nothing for this node but its segments in turn; and then the bytes
      collected are their concatenation. */
  lemma {:induction false} DownloadIsTheOpenChain<S>(w: World<S>, es: seq<Event>)
    requires Fresh(w.server)
    ensures Play(w, es).server.transfer.Downloading? <==> exists j: nat :: OpenSince(es, j, w.server)
    ensures forall j: nat :: OpenSince(es, j, w.server) ==>
              Play(w, es).server.transfer == DownloadSince(es, j, w.server.node)
    decreases |es|
  {
    hide Apply, OpenSince, DownloadSince;
    if es == [] {
      NoneOpenAtStart(w.server);
    } else {
      var before := Play(w, Front(es));
      DownloadIsTheOpenChain(w, Front(es));
      DeadlineDiscipline(w, Front(es));
      OpenSinceConfig(Front(es), w.server, before.server);
      OpenSinceConfig(es, w.server, before.server);
      ChainHoldsStep(before, es);
    }
  }

  lemma ChainHoldsStep<S>(w: World<S>, es: seq<Event>)
    requires es != [] && ChainHolds(Front(es), w.server, w.server.transfer)
    requires w.server.deadline == Due(w.server, LastTime(Front(es), w.server.node))
    ensures ChainHolds(es, w.server, Apply(w, Final(es)).server.transfer)
  {
    hide Apply, OpenSince, DownloadSince, Continues, OpensNow;
    var v := w.server;
    var t := Apply(w, Final(es)).server.transfer;
    OnlySomeIndex(es, v);
    OpenedNow(es, v);
    forall j: nat | j < |es| - 1
      ensures OpenSince(es, j, v) <==> OpenSince(Front(es), j, v) && Continues(es, j, v)
      ensures OpenSince(es, j, v) ==> t.Downloading? && t == DownloadSince(es, j, v.node) && !OpensNow(es, v)
    {
      ChainStep(es, j, v);
      if OpenSince(Front(es), j, v) {
        StepFrom(w, es, j);
      }
    }
    if v.transfer.Downloading? {
      var j: nat :| OpenSince(Front(es), j, v);
      OnlySomeIndex(Front(es), v);
      StepFrom(w, es, j);
    } else {
      StepFromNone(w, es);
    }
    forall j: nat | OpenSince(es, j, v)
      ensures t.Downloading? && t == DownloadSince(es, j, v.node)
    {
      assert j < |es| - 1 || j == |es| - 1;
    }
  }

  lemma OnlySomeIndex(es: seq<Event>, v: Server)
    ensures forall j: nat :: OpenSince(es, j, v) ==> j < |es|
  {
  }

  lemma OpenedNow(es: seq<Event>, v: Server)
    requires es != []
    ensures OpenSince(es, |es| - 1, v) <==> OpensNow(es, v)
  {
    JustOpened(es, v);
  }

  lemma NoneOpenAtStart(v: Server)
    ensures forall j: nat :: !OpenSince([], j, v)
  {
  }

  // ----- what reaches the dictionary -----

  /** `d` is the final segment of the download opened at `j`: in turn, within the buffer
      and, if a size was announced, filling it exactly. */
  ghost predicate Completes(es: seq<Event>, j: nat, v: Server, d: Payload)
    requires OpenSince(es, j, v)
  {
    var segs := SegmentsSince(es, j, v.node);
    var size := |Concat(segs)| + SegmentLength(d[0]);
    var announced := Announced(es[j].frame.data);
    InTurn(d, |segs|) && FinalSegment(d[0]) && size <= v.room && (announced.Some? ==> announced.value == size)
  }

  /** Every dictionary call, read off the history: an upload initiation reads, an
      expedited initiation writes its bytes, the final segment of an open download
      writes the whole of it, and nothing else - no timer, no frame for others, no
      abort, no partial, late, oversized or superseded download - reaches it. */
  lemma WritesAreAtomic<S>(w: World<S>, es: seq<Event>, e: Event)
    requires Fresh(w.server)
    ensures var v, od, od' := w.server, Play(w, es).od, Play(w, es + [e]).od;
            if !ForMe(e, v.node) then od' == od
            else
              var d := e.frame.data;
              var cs := Specifier(d[0]);
              if cs == CCS_INIT_UPLOAD then od' == od.Read(IndexOf(d), SubOf(d), v.room).0
              else if cs == CCS_INIT_DOWNLOAD && Expedited(d[0]) then
                od' == od.Write(IndexOf(d), SubOf(d), d[4..4 + ExpeditedLength(d[0])]).0
              else
                && (forall j: nat :: OpenSince(es, j, v) && Completes(es, j, v, d) ==>
                      od' == od.Write(IndexOf(es[j].frame.data), SubOf(es[j].frame.data),
                                      Concat(SegmentsSince(es, j, v.node)) + Carried(d)).0)
                && ((forall j: nat :: OpenSince(es, j, v) ==> !Completes(es, j, v, d)) ==> od' == od)
  {
    hide Server.Handle, Specifier, Toggle, Expedited, SizeIndicated, ExpeditedLength, FinalSegment, Carried,
      SegmentLength;
    var before := Play(w, es);
    assert Front(es + [e]) == es && Final(es + [e]) == e;
    DeadlineDiscipline(w, es);
    if ForMe(e, w.server.node) {
      DownloadIsTheOpenChain(w, es);
      CallMade(before.server, e.frame, e.now, before.od);
    } else {
      NotForMe(before, e);
    }
  }

  lemma NotForMe<S>(w: World<S>, e: Event)
    requires !ForMe(e, w.server.node)
    ensures Apply(w, e).od == w.od
  {
  }

  /** The dictionary call a frame causes, in terms of the open transfer. */
  lemma CallMade<S>(v: Server, f: SdoFrame, now: nat, od: Dictionary<S>)
    requires NodeOfRsdo(f.cobId) == Some(v.node)
    ensures var d, t, od' := f.data, v.transfer, v.Handle(f, now, od).od;
            if Specifier(d[0]) == CCS_INIT_UPLOAD then od' == od.Read(IndexOf(d), SubOf(d), v.room).0
            else if Specifier(d[0]) == CCS_INIT_DOWNLOAD && Expedited(d[0]) then
              od' == od.Write(IndexOf(d), SubOf(d), d[4..4 + ExpeditedLength(d[0])]).0
            else if && t.Downloading? && InTurn(d, t.count) && FinalSegment(d[0])
                    && |t.acc| + SegmentLength(d[0]) <= v.room
                    && (t.expected.Some? ==> t.expected.value == |t.acc| + SegmentLength(d[0]))
            then od' == od.Write(t.idx, t.sub, t.acc + Carried(d)).0
            else od' == od
  {
    hide Specifier, Toggle, Expedited, SizeIndicated, ExpeditedLength, FinalSegment, SegmentLength,
      InitUploadBody, UploadSegmentBody, InitDownloadAckBody, DownloadSegmentAckBody, AbortBody, LastChunk, Fill;
  }
}
