/** One transfer, seen from outside both machines: the j-th request, the j-th
    response, and where each machine stands between them. */
module Protocol {
  import opened Segments
  import opened Wire
  import opened ClientSpec
  import opened ServerSpec

  datatype Session = Session(node: Byte, idx: U16, sub: Byte, upload: bool, bytes: seq<Byte>)
  {
    ghost predicate Valid() { ValidNode(node) && (!upload ==> bytes != []) }

    predicate Short() { 1 <= |bytes| <= 4 }

    /** Number of the final request: 0 when the bytes fit the initiate frames,
        else one request for each started group of seven bytes, and at least one. */
    function Last(): nat {
      if Short() then 0 else if bytes == [] then 1 else (|bytes| + 6) / 7
    }

    function RequestBody(j: nat): Payload
      requires !upload ==> bytes != []
    {
      if upload then if j == 0 then InitUploadRequest(idx, sub) else UploadSegmentRequest(Parity(j - 1))
      else if j == 0 then InitDownloadRequest(idx, sub, bytes) else DownloadSegmentRequest(bytes, j - 1)
    }

    function ResponseBody(j: nat): Payload {
      if upload then if j == 0 then InitUploadBody(idx, sub, bytes) else UploadSegmentBody(bytes, j - 1)
      else if j == 0 then InitDownloadAckBody(idx, sub) else DownloadSegmentAckBody(Parity(j - 1))
    }

    function Req(j: nat): SdoFrame
      requires !upload ==> bytes != []
    {
      SdoFrame(RsdoId(node), RequestBody(j))
    }

    function Resp(j: nat): SdoFrame { SdoFrame(TsdoId(node), ResponseBody(j)) }

    /** The server after answering `j` requests. */
    function ServerAt(j: nat): Transfer {
      if j == 0 || j > Last() then Idle
      else if upload then Uploading(idx, sub, bytes, j - 1)
      else Downloading(idx, sub, Upto(bytes, j - 1), j - 1, Some(|bytes| % TWO32))
    }

    /** The client waiting for response `n`. */
    function ClientAt(n: nat): Exchange {
      if upload then
        if n == 0 then UploadInit(node, idx, sub)
        else UploadSegments(node, idx, sub, Upto(bytes, n - 1), n - 1, Some(|bytes| % TWO32))
      else if n == 0 then DownloadInit(node, idx, sub, bytes)
      else DownloadSegments(node, idx, sub, bytes, n - 1)
    }

    /** What the final response makes the client report. */
    function FinalResult(): Result {
      if !upload then Done(DownloadCompleted)
      else if |bytes| < TWO32 then Done(UploadCompleted(bytes))
      else Failed(ClientAborted(DataTypeLengthMismatch))
    }
  }

  /** The final segment is the one request `Last` asks for or carries. */
  lemma LastRequest(s: Session, n: nat)
    ensures s.Short() <==> s.Last() == 0
    ensures n >= 1 && !s.Short() ==> (LastChunk(s.bytes, n - 1) <==> n >= s.Last())
  {
    if s.bytes != [] && !s.Short() {
      assert 7 * ((|s.bytes| + 6) / 7) <= |s.bytes| + 6 < 7 * ((|s.bytes| + 6) / 7) + 7;
    }
  }

  // ----- what each frame decodes to -----

  lemma TogglePlain(cs: Byte, toggle: bool)
    requires cs % 0x20 == 0
    ensures var cmd := cs + (if toggle then TOGGLE_BIT else 0);
            Specifier(cmd) == cs && Toggle(cmd) == toggle
  {
    var t := if toggle then 1 else 0;
    var q := (cs as int) / 0x20;
    DivRem(0x20 * q + 16 * t, 0x20, q, 16 * t);
    DivRem(0x20 * q + 16 * t, 16, 2 * q + t, 0);
    DivRem(2 * q + t, 2, q, t);
  }

  lemma SizedCommand(cs: Byte)
    requires cs % 0x20 == 0
    ensures var cmd := cs + 1; Specifier(cmd) == cs && !Expedited(cmd) && SizeIndicated(cmd)
  {
    var q := (cs as int) / 0x20;
    DivRem(0x20 * q + 1, 0x20, q, 1);
    DivRem(0x20 * q + 1, 2, 16 * q, 1);
    DivRem(16 * q, 2, 8 * q, 0);
  }

  lemma UploadRequestFields(s: Session, j: nat)
    requires s.Valid() && s.upload
    ensures NodeOfRsdo(s.Req(j).cobId) == Some(s.node)
    ensures var d := s.RequestBody(j);
            if j == 0 then Specifier(d[0]) == CCS_INIT_UPLOAD && IndexOf(d) == s.idx && SubOf(d) == s.sub
            else Specifier(d[0]) == CCS_UPLOAD_SEGMENT && Toggle(d[0]) == Parity(j - 1)
  {
    IdentifiersNameTheNode(s.node);
    if j == 0 {
      AddressedFields(CCS_INIT_UPLOAD, s.idx, s.sub, []);
    } else {
      TogglePlain(CCS_UPLOAD_SEGMENT, Parity(j - 1));
    }
  }

  lemma DownloadRequestFields(s: Session, j: nat)
    requires s.Valid() && !s.upload
    ensures NodeOfRsdo(s.Req(j).cobId) == Some(s.node)
    ensures var d := s.RequestBody(j);
            if j == 0 then
              && Specifier(d[0]) == CCS_INIT_DOWNLOAD && IndexOf(d) == s.idx && SubOf(d) == s.sub
              && Expedited(d[0]) == s.Short()
              && (s.Short() ==> d[4..4 + ExpeditedLength(d[0])] == s.bytes)
              && (!s.Short() ==> SizeIndicated(d[0]) && SizeOf(d) == |s.bytes| % TWO32)
            else
              && Specifier(d[0]) == CCS_DOWNLOAD_SEGMENT && Toggle(d[0]) == Parity(j - 1)
              && d[1..1 + SegmentLength(d[0])] == Chunk(s.bytes, j - 1)
              && SegmentLength(d[0]) == |Chunk(s.bytes, j - 1)|
              && FinalSegment(d[0]) == LastChunk(s.bytes, j - 1)
  {
    IdentifiersNameTheNode(s.node);
    if j == 0 {
      if s.Short() {
        InitCommandDecodes(CCS_INIT_DOWNLOAD, |s.bytes|);
        AddressedFields(InitCommand(CCS_INIT_DOWNLOAD, |s.bytes|), s.idx, s.sub, s.bytes);
      } else {
        SizedCommand(CCS_INIT_DOWNLOAD);
        AddressedFields(CCS_INIT_DOWNLOAD + 1, s.idx, s.sub, Le32(|s.bytes| % TWO32));
        Le32RoundTrip(|s.bytes| % TWO32);
      }
    } else {
      var c := Chunk(s.bytes, j - 1);
      SegmentCommandDecodes(CCS_DOWNLOAD_SEGMENT, Parity(j - 1), |c|, LastChunk(s.bytes, j - 1));
      SegmentBodyFields(SegmentCommand(CCS_DOWNLOAD_SEGMENT, Parity(j - 1), |c|, LastChunk(s.bytes, j - 1)), c);
    }
  }

  lemma UploadResponseFields(s: Session, j: nat)
    requires s.Valid() && s.upload
    ensures NodeOfTsdo(s.Resp(j).cobId) == Some(s.node)
    ensures var d := s.ResponseBody(j);
            if j == 0 then
              && Specifier(d[0]) == SCS_INIT_UPLOAD && IndexOf(d) == s.idx && SubOf(d) == s.sub
              && Expedited(d[0]) == s.Short()
              && (s.Short() ==> d[4..4 + ExpeditedLength(d[0])] == s.bytes)
              && (!s.Short() ==> SizeIndicated(d[0]) && SizeOf(d) == |s.bytes| % TWO32)
            else
              && Specifier(d[0]) == SCS_UPLOAD_SEGMENT && Toggle(d[0]) == Parity(j - 1)
              && d[1..1 + SegmentLength(d[0])] == Chunk(s.bytes, j - 1)
              && FinalSegment(d[0]) == LastChunk(s.bytes, j - 1)
  {
    IdentifiersNameTheNode(s.node);
    if j == 0 {
      if s.Short() {
        InitCommandDecodes(SCS_INIT_UPLOAD, |s.bytes|);
        AddressedFields(InitCommand(SCS_INIT_UPLOAD, |s.bytes|), s.idx, s.sub, s.bytes);
      } else {
        SizedCommand(SCS_INIT_UPLOAD);
        AddressedFields(SCS_INIT_UPLOAD + 1, s.idx, s.sub, Le32(|s.bytes| % TWO32));
        Le32RoundTrip(|s.bytes| % TWO32);
      }
    } else {
      var c := Chunk(s.bytes, j - 1);
      SegmentCommandDecodes(SCS_UPLOAD_SEGMENT, Parity(j - 1), |c|, LastChunk(s.bytes, j - 1));
      SegmentBodyFields(SegmentCommand(SCS_UPLOAD_SEGMENT, Parity(j - 1), |c|, LastChunk(s.bytes, j - 1)), c);
    }
  }

  lemma DownloadResponseFields(s: Session, j: nat)
    requires s.Valid() && !s.upload
    ensures NodeOfTsdo(s.Resp(j).cobId) == Some(s.node)
    ensures var d := s.ResponseBody(j);
            if j == 0 then Specifier(d[0]) == SCS_INIT_DOWNLOAD && IndexOf(d) == s.idx && SubOf(d) == s.sub
            else Specifier(d[0]) == SCS_DOWNLOAD_SEGMENT && Toggle(d[0]) == Parity(j - 1)
  {
    IdentifiersNameTheNode(s.node);
    if j == 0 {
      AddressedFields(SCS_INIT_DOWNLOAD, s.idx, s.sub, []);
    } else {
      TogglePlain(SCS_DOWNLOAD_SEGMENT, Parity(j - 1));
    }
  }

  // ----- one step of the server -----

  /** `v'` is the server `v` after the step that answers request `j`. */
  ghost predicate Answered(s: Session, v: Server, v': Server, j: nat) {
    && v'.node == v.node && v'.room == v.room
    && v'.transfer == s.ServerAt(j + 1) && v'.tx == Some(s.Resp(j))
  }

  /** `v'` is the server `v` after giving up on the session's object with `code`. */
  ghost predicate GaveUp(s: Session, v: Server, v': Server, code: AbortCode) {
    && v'.node == v.node && v'.room == v.room
    && v'.transfer == Idle && v'.tx == Some(SdoFrame(TsdoId(s.node), AbortBody(s.idx, s.sub, code)))
  }

  /** An upload is initiated: the dictionary is read once, and the answer opens a
      session over exactly the bytes read. */
  lemma ServerOpensUpload<S>(s: Session, v: Server, now: nat, od: Dictionary<S>)
    requires s.Valid() && s.upload && v.node == s.node
    ensures var (od', reply) := od.Read(s.idx, s.sub, v.room);
            var step := v.Handle(s.Req(0), now, od);
            && step.od == od'
            && match reply
               case ReadErr(code) => GaveUp(s, v, step.server, code) && step.aborted == Some(code)
               case ReadOk(len, bytes) =>
                 if len > v.room
                 then GaveUp(s, v, step.server, OutOfMemory) && step.aborted == Some(OutOfMemory)
                 else Fill(len, bytes) == s.bytes ==> Answered(s, v, step.server, 0) && step.aborted == None
  {
    hide LastChunk, Chunk, Upto, Session.RequestBody, Session.Last, NodeOfRsdo, Specifier, Toggle,
      Expedited, SizeIndicated, ExpeditedLength, SegmentLength, FinalSegment;
    UploadRequestFields(s, 0);
    LastRequest(s, 0);
  }

  lemma ServerServesSegment<S>(s: Session, v: Server, j: nat, now: nat, od: Dictionary<S>)
    requires s.Valid() && s.upload && v.node == s.node && 1 <= j <= s.Last()
    requires v.transfer == s.ServerAt(j)
    ensures var step := v.Handle(s.Req(j), now, od);
            step.od == od && step.aborted == None && Answered(s, v, step.server, j)
  {
    hide LastChunk, Chunk, Upto, Session.RequestBody, Session.Last, NodeOfRsdo, Specifier, Toggle,
      Expedited, SizeIndicated, ExpeditedLength, SegmentLength, FinalSegment;
    UploadRequestFields(s, j);
    LastRequest(s, j);
  }

  /** An expedited write goes to the dictionary at once; a larger one opens a
      session if the announced size fits. */
  lemma ServerOpensDownload<S>(s: Session, v: Server, now: nat, od: Dictionary<S>)
    requires s.Valid() && !s.upload && v.node == s.node
    ensures var step := v.Handle(s.Req(0), now, od);
            if s.Short() then
              var (od', refused) := od.Write(s.idx, s.sub, s.bytes);
              && step.od == od' && step.aborted == refused
              && if refused.Some? then GaveUp(s, v, step.server, refused.value)
                 else Answered(s, v, step.server, 0)
            else
              && step.od == od
              && if |s.bytes| % TWO32 > v.room
                 then GaveUp(s, v, step.server, OutOfMemory) && step.aborted == Some(OutOfMemory)
                 else Answered(s, v, step.server, 0) && step.aborted == None
  {
    hide LastChunk, Chunk, Session.RequestBody, Session.Last, NodeOfRsdo, Specifier, Toggle, Expedited,
      SizeIndicated, ExpeditedLength, SegmentLength, FinalSegment;
    DownloadRequestFields(s, 0);
    LastRequest(s, 0);
    ChunksConcatenate(s.bytes, 0);
  }

  /** A segment is kept if it fits; the last one is checked against the announced
      size and written as one value. */
  lemma ServerTakesSegment<S>(s: Session, v: Server, j: nat, now: nat, od: Dictionary<S>)
    requires s.Valid() && !s.upload && v.node == s.node && 1 <= j <= s.Last()
    requires v.transfer == s.ServerAt(j)
    ensures var step := v.Handle(s.Req(j), now, od);
            if |Upto(s.bytes, j)| > v.room then
              GaveUp(s, v, step.server, OutOfMemory) && step.aborted == Some(OutOfMemory) && step.od == od
            else if j < s.Last() then Answered(s, v, step.server, j) && step.aborted == None && step.od == od
            else if |s.bytes| >= TWO32 then
              && GaveUp(s, v, step.server, DataTypeLengthMismatch)
              && step.aborted == Some(DataTypeLengthMismatch) && step.od == od
            else
              var (od', refused) := od.Write(s.idx, s.sub, s.bytes);
              && step.od == od' && step.aborted == refused
              && if refused.Some? then GaveUp(s, v, step.server, refused.value)
                 else Answered(s, v, step.server, j)
  {
    hide LastChunk, Chunk, Session.RequestBody, Session.Last, NodeOfRsdo, Specifier, Toggle, Expedited,
      SizeIndicated, ExpeditedLength, SegmentLength, FinalSegment;
    DownloadRequestFields(s, j);
    LastRequest(s, j);
    ChunksConcatenate(s.bytes, j - 1);
  }

  // ----- one step of the client -----

  /** `after` is the client that got response `n` of the session. */
  ghost predicate Advanced(s: Session, n: nat, after: (Client, Result))
    requires s.Valid()
  {
    if n < s.Last()
    then after.0.exchange == s.ClientAt(n + 1) && after.0.tx == Some(s.Req(n + 1)) && after.1 == Pending
    else
      && after.0.exchange == Rest && after.1 == s.FinalResult()
      && after.0.tx == if after.1.Done? then None
                       else Some(SdoFrame(RsdoId(s.node), AbortBody(s.idx, s.sub, DataTypeLengthMismatch)))
  }

  /** The response the client waits for moves it on by one, and the last one ends the transfer. */
  lemma ClientAdvances(s: Session, c: Client, n: nat, now: nat)
    requires s.Valid() && n <= s.Last() && c.exchange == s.ClientAt(n)
    ensures Advanced(s, n, c.Handle(s.Resp(n), now))
  {
    if s.upload {
      UploadAdvances(s, c, n, now);
    } else {
      DownloadAdvances(s, c, n, now);
    }
  }

  lemma UploadAdvances(s: Session, c: Client, n: nat, now: nat)
    requires s.Valid() && s.upload && n <= s.Last() && c.exchange == s.ClientAt(n)
    ensures Advanced(s, n, c.Handle(s.Resp(n), now))
  {
    hide LastChunk, Chunk, Upto, Session.ResponseBody, Session.Last, NodeOfTsdo, Specifier, Toggle,
      Expedited, SizeIndicated, ExpeditedLength, SegmentLength, FinalSegment;
    LastRequest(s, n);
    UploadResponseFields(s, n);
    ChunksConcatenate(s.bytes, if n == 0 then 0 else n - 1);
  }

  lemma DownloadAdvances(s: Session, c: Client, n: nat, now: nat)
    requires s.Valid() && !s.upload && n <= s.Last() && c.exchange == s.ClientAt(n)
    ensures Advanced(s, n, c.Handle(s.Resp(n), now))
  {
    hide LastChunk, Chunk, Upto, Session.ResponseBody, Session.Last, NodeOfTsdo, Specifier, Toggle,
      Expedited, SizeIndicated, ExpeditedLength, SegmentLength, FinalSegment;
    LastRequest(s, n);
    DownloadResponseFields(s, n);
  }

  /** An abort for the transfer in flight ends it with the code the server sent. */
  lemma ClientLearnsAbort(s: Session, c: Client, n: nat, code: AbortCode, now: nat)
    requires s.Valid() && c.exchange == s.ClientAt(n)
    ensures c.Handle(SdoFrame(TsdoId(s.node), AbortBody(s.idx, s.sub, code)), now)
         == (c.Clear(), Failed(ServerAborted(FromRaw(Raw(code)))))
  {
    IdentifiersNameTheNode(s.node);
    AbortBodyFields(s.idx, s.sub, code);
  }
}
