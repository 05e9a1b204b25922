/** The client over whole runs, against any server and any clock. */
module ClientRuns {
  import opened Segments
  import opened Wire
  import opened ClientSpec

  datatype Event =
    | StartUpload(node: Byte, idx: U16, sub: Byte, now: nat)
    | StartDownload(node: Byte, idx: U16, sub: Byte, data: seq<Byte>, now: nat)
    | Frame(frame: SdoFrame, now: nat)
    | Timer(now: nat)
    | Quit(code: AbortCode)
    | Poll

  function Apply(c: Client, e: Event): (Client, Result) {
    match e
    case StartUpload(node, idx, sub, now) =>
      var (c', error) := c.BeginUpload(node, idx, sub, now);
      (c', if error.Some? then Failed(error.value) else Pending)
    case StartDownload(node, idx, sub, data, now) =>
      var (c', error) := c.BeginDownload(node, idx, sub, data, now);
      (c', if error.Some? then Failed(error.value) else Pending)
    case Frame(f, now) => c.Handle(f, now)
    case Timer(now) => c.HandleTimeout(now)
    case Quit(code) => (c.AbortWith(code), Pending)
    case Poll => (c.(tx := None), Pending)
  }

  /** The client after a run, and everything it reported but `Pending`. */
  function Play(c: Client, es: seq<Event>): (Client, seq<Result>) {
    if es == [] then (c, [])
    else
      var (c', log) := Play(c, Front(es));
      var (c'', r) := Apply(c', Final(es));
      (c'', if r == Pending then log else log + [r])
  }

  function After(c: Client, es: seq<Event>): Client { Play(c, es).0 }

  /** A client as `SdoClient::new` makes it. */
  ghost predicate Fresh(c: Client) { c.exchange == Rest && c.tx == None && c.deadline == None }

  // ----- which frames matter -----

  /** The command the client waits for. */
  function Awaited(x: Exchange): Byte
    requires x != Rest
  {
    match x
    case UploadInit(_, _, _) => SCS_INIT_UPLOAD
    case UploadSegments(_, _, _, _, _, _) => SCS_UPLOAD_SEGMENT
    case DownloadInit(_, _, _, _) => SCS_INIT_DOWNLOAD
    case DownloadSegments(_, _, _, _, _) => SCS_DOWNLOAD_SEGMENT
  }

  predicate SameObject(x: Exchange, d: Payload)
    requires x != Rest
  {
    IndexOf(d) == x.idx && SubOf(d) == x.sub
  }

  /** A frame from the server in use that is an abort of this object or the awaited
      response; initiate responses must name the object, segments cannot. */
  predicate Relevant(x: Exchange, f: SdoFrame) {
    && x != Rest && NodeOfTsdo(f.cobId) == Some(x.node)
    && var cs := Specifier(f.data[0]);
       if cs == CS_ABORT then SameObject(x, f.data)
       else cs == Awaited(x) && (x.UploadInit? || x.DownloadInit? ==> SameObject(x, f.data))
  }

  /** The client ignores a frame - same state, same slot, same deadline, nothing
      reported - exactly when it is not relevant. */
  lemma IgnoredIffIrrelevant(c: Client, f: SdoFrame, now: nat)
    ensures c.Handle(f, now) == (c, Pending) <==> !Relevant(c.exchange, f)
  {
    hide Toggle, Expedited, SizeIndicated, ExpeditedLength, SegmentLength, FinalSegment, AbortBody, LastChunk,
      DownloadSegmentRequest, UploadSegmentRequest, IndexOf, SizeOf, AbortCodeOf, NodeOfTsdo, Specifier;
  }

  /** Frames of other nodes, frames outside the response range and aborts of other objects are irrelevant. */
  lemma ForeignIsIrrelevant(x: Exchange, f: SdoFrame)
    requires x != Rest
    requires || NodeOfTsdo(f.cobId) == None
             || NodeOfTsdo(f.cobId) != Some(x.node)
             || (Specifier(f.data[0]) == CS_ABORT && !SameObject(x, f.data))
    ensures !Relevant(x, f)
  {
  }

  lemma {:induction false} PlayJoins(c: Client, a: seq<Event>, b: seq<Event>)
    ensures var (c1, log1) := Play(c, a);
            var (c2, log2) := Play(c1, b);
            Play(c, a + b) == (c2, log1 + log2)
    decreases |b|
  {
    hide Apply;
    if b == [] {
      assert a + b == a;
      assert Play(c, a).1 + [] == Play(c, a).1;
    } else {
      PlayJoins(c, a, Front(b));
      assert Front(a + b) == a + Front(b) && Final(a + b) == Final(b);
      var log1, log2 := Play(c, a).1, Play(Play(c, a).0, Front(b)).1;
      var r := Apply(Play(Play(c, a).0, Front(b)).0, Final(b)).1;
      assert log1 + (log2 + [r]) == log1 + log2 + [r];
    }
  }

  /** Putting a frame that is irrelevant at its moment anywhere into a run changes
      neither the client that comes out nor anything reported on the way. */
  lemma InsertionIsInvisible(c: Client, before: seq<Event>, f: SdoFrame, now: nat, rest: seq<Event>)
    requires !Relevant(After(c, before).exchange, f)
    ensures Play(c, before + [Frame(f, now)] + rest) == Play(c, before + rest)
  {
    hide Apply, Client.Handle, Relevant;
    var (c1, log1) := Play(c, before);
    IgnoredIffIrrelevant(c1, f, now);
    OneEvent(c1, Frame(f, now));
    ApplyFrame(c1, f, now);
    PlayJoins(c, before, [Frame(f, now)]);
    PlayJoins(c, before + [Frame(f, now)], rest);
    PlayJoins(c, before, rest);
    assert log1 + [] == log1;
  }

  /** The run without the frames that were irrelevant at their moment. */
  function Kept(c: Client, es: seq<Event>): seq<Event> {
    if es == [] then []
    else if Final(es).Frame? && !Relevant(After(c, Front(es)).exchange, Final(es).frame) then Kept(c, Front(es))
    else Kept(c, Front(es)) + [Final(es)]
  }

  /** However many such frames a run holds, and wherever, it is the run without them. */
  lemma {:induction false} IrrelevantFramesAreInvisible(c: Client, es: seq<Event>)
    ensures Play(c, Kept(c, es)) == Play(c, es)
    decreases |es|
  {
    hide Apply, Relevant;
    if es != [] {
      IrrelevantFramesAreInvisible(c, Front(es));
      var b, e, kept := After(c, Front(es)), Final(es), Kept(c, Front(es));
      if e.Frame? && !Relevant(b.exchange, e.frame) {
        IgnoredIffIrrelevant(b, e.frame, e.now);
        ApplyFrame(b, e.frame, e.now);
      } else {
        assert Front(kept + [e]) == kept && Final(kept + [e]) == e;
      }
    }
  }

  /** A frame from another node, outside the response range, or an abort of another object. */
  predicate Foreign(x: Exchange, f: SdoFrame) {
    || x == Rest || NodeOfTsdo(f.cobId) != Some(x.node)
    || (Specifier(f.data[0]) == CS_ABORT && !SameObject(x, f.data))
  }

  /** `es` with any number of foreign frames put in between: `stays` says which of its events
      stay, in order, and every event left out is a frame foreign at its moment. */
  ghost predicate Interspersed(c: Client, es: seq<Event>, stays: seq<bool>) {
    && |stays| == |es|
    && forall i: nat :: i < |es| && !stays[i] ==> es[i].Frame? && Foreign(After(c, es[..i]).exchange, es[i].frame)
  }

  function Staying(es: seq<Event>, stays: seq<bool>): seq<Event>
    requires |es| == |stays|
  {
    if es == [] then []
    else if Final(stays) then Staying(Front(es), Front(stays)) + [Final(es)] else Staying(Front(es), Front(stays))
  }

  /** Taking out any choice of the foreign frames of a run changes neither the client that
      comes out nor anything reported on the way. */
  lemma {:induction false} ForeignFramesAreInvisible(c: Client, es: seq<Event>, stays: seq<bool>)
    requires Interspersed(c, es, stays)
    ensures Play(c, Staying(es, stays)) == Play(c, es)
    decreases |es|
  {
    hide Apply, Relevant, Foreign, Interspersed, Play;
    if es != [] {
      var b, e := After(c, Front(es)), Final(es);
      InterspersedFront(c, es, stays);
      ForeignFramesAreInvisible(c, Front(es), Front(stays));
      var kept := Staying(Front(es), Front(stays));
      PlayLast(c, es);
      if Final(stays) {
        PlayLast(c, kept + [e]);
        assert Front(kept + [e]) == kept && Final(kept + [e]) == e;
      } else {
        ForeignFrame(b.exchange, e.frame);
        IgnoredIffIrrelevant(b, e.frame, e.now);
        ApplyFrame(b, e.frame, e.now);
      }
    }
  }

  lemma PlayLast(c: Client, es: seq<Event>)
    requires es != []
    ensures var (c', log) := Play(c, Front(es));
            var (c'', r) := Apply(c', Final(es));
            Play(c, es) == (c'', if r == Pending then log else log + [r])
  {
  }

  lemma InterspersedFront(c: Client, es: seq<Event>, stays: seq<bool>)
    requires Interspersed(c, es, stays) && es != []
    ensures |stays| == |es| && Interspersed(c, Front(es), Front(stays))
    ensures !Final(stays) ==> Final(es).Frame? && Foreign(After(c, Front(es)).exchange, Final(es).frame)
  {
    hide Apply, Play, Foreign;
    var n := |es| - 1;
    assert es[..n] == Front(es);
    forall i: nat | i < n && !stays[i]
      ensures es[i].Frame? && Foreign(After(c, Front(es)[..i]).exchange, es[i].frame)
    {
      assert Front(es)[..i] == es[..i];
    }
  }

  lemma ForeignFrame(x: Exchange, f: SdoFrame)
    requires Foreign(x, f)
    ensures !Relevant(x, f)
  {
    if x != Rest {
      ForeignIsIrrelevant(x, f);
    }
  }

  lemma OneEvent(c: Client, e: Event)
    ensures var (c', r) := Apply(c, e); Play(c, [e]) == (c', if r == Pending then [] else [r])
  {
    hide Apply;
    assert Front([e]) == [];
    assert Play(c, []) == (c, []);
    var r := Apply(c, e).1;
    assert [] + [r] == [r];
  }

  lemma ApplyFrame(c: Client, f: SdoFrame, now: nat)
    ensures Apply(c, Frame(f, now)) == c.Handle(f, now)
  {
  }

  // ----- deadlines -----

  /** Time of the last step that moved the transfer in progress. */
  function LastMove(c: Client, es: seq<Event>): nat {
    if es == [] then 0
    else if After(c, es).exchange == After(c, Front(es)).exchange then LastMove(c, Front(es))
    else match Final(es)
         case StartUpload(_, _, _, now) => now
         case StartDownload(_, _, _, _, now) => now
         case Frame(_, now) => now
         case _ => 0
  }

  /** In every reachable state the client has a deadline exactly when it is busy, and it
      runs from the last step that moved the transfer; and whenever it reports that it
      aborted, it is idle, without deadline, with the matching abort frame queued. */
  lemma {:induction false} DeadlineDiscipline(c: Client, es: seq<Event>)
    requires Fresh(c)
    ensures After(c, es).timeout == c.timeout
    ensures After(c, es).deadline
         == if After(c, es).exchange == Rest then None else Some(LastMove(c, es) + c.timeout)
    decreases |es|
  {
    hide Apply;
    if es != [] {
      DeadlineDiscipline(c, Front(es));
      DeadlineStep(After(c, Front(es)), Final(es));
    }
  }

  lemma DeadlineStep(c: Client, e: Event)
    requires c.deadline.None? <==> c.exchange == Rest
    ensures var (c', _) := Apply(c, e);
            && c'.timeout == c.timeout
            && if c'.exchange == Rest then c'.deadline == None
               else if c'.exchange == c.exchange then c'.deadline == c.deadline
               else (e.StartUpload? || e.StartDownload? || e.Frame?) && c'.deadline == Some(e.now + c.timeout)
  {
    hide Toggle, Expedited, SizeIndicated, ExpeditedLength, SegmentLength, FinalSegment, AbortBody, LastChunk,
      DownloadSegmentRequest, UploadSegmentRequest, InitUploadRequest, InitDownloadRequest, IndexOf, SizeOf,
      AbortCodeOf, NodeOfTsdo, Specifier;
  }

  lemma AbortsAreQueued(c: Client, es: seq<Event>, e: Event)
    requires Fresh(c)
    ensures var b := After(c, es);
            var (c', r) := Apply(b, e);
            r.Failed? && r.error.ClientAborted? ==>
              && b.exchange != Rest && c'.exchange == Rest && c'.deadline == None
              && c'.tx == Some(SdoFrame(RsdoId(b.exchange.node),
                AbortBody(b.exchange.idx, b.exchange.sub, r.error.code)))
  {
    DeadlineDiscipline(c, es);
    hide Toggle, Expedited, SizeIndicated, ExpeditedLength, SegmentLength, FinalSegment, AbortBody, LastChunk,
      DownloadSegmentRequest, UploadSegmentRequest, InitUploadRequest, InitDownloadRequest, IndexOf, SizeOf,
      AbortCodeOf, NodeOfTsdo, Specifier;
  }

  /** Over runs: the timer ends a transfer exactly when one is in progress and the timeout
      has passed since it last moved; otherwise it does nothing. */
  lemma TimesOutIff(c: Client, es: seq<Event>, now: nat)
    requires Fresh(c)
    ensures var b := After(c, es);
            var (c', r) := Apply(b, Timer(now));
            if b.exchange != Rest && now >= LastMove(c, es) + c.timeout
            then
              && r == Failed(ClientAborted(ProtocolTimeout))
              && c' == b.AbortWith(ProtocolTimeout)
              && c'.exchange == Rest
            else r == Pending && c' == b
  {
    DeadlineDiscipline(c, es);
  }

  /** When the client aborts on a frame, and with which code: a segment or its acknowledgement
      comes out of turn, or the last segment makes another size than announced. */
  lemma AbortsIff(c: Client, f: SdoFrame, now: nat)
    ensures var x, d := c.exchange, f.data;
            var (c', r) := c.Handle(f, now);
            var mine := x != Rest && NodeOfTsdo(f.cobId) == Some(x.node);
            var toggle := d[0] / 0x10 % 2 == 1;
            var turn := mine && ((x.UploadSegments? && d[0] / 0x20 == 0) || (x.DownloadSegments? && d[0] / 0x20 == 1));
            var count := if x.UploadSegments? then x.count else if x.DownloadSegments? then x.acked else 0;
            var wrong := turn && toggle != (count % 2 == 1);
            var misfit := && turn && !wrong && x.UploadSegments? && d[0] % 2 == 1
                          && x.expected.Some? && x.expected.value != |x.received| + 7 - d[0] / 2 % 8;
            && (r == Failed(ClientAborted(ToggleBitNotAlternated)) <==> wrong)
            && (r == Failed(ClientAborted(DataTypeLengthMismatch)) <==> misfit)
            && (wrong || misfit <==> r.Failed? && r.error.ClientAborted?)
            && (wrong || misfit ==> c' == c.AbortWith(r.error.code))
  {
    hide NodeOfTsdo, IndexOf, SizeOf, LastChunk, AbortBody, DownloadSegmentRequest, UploadSegmentRequest, AbortCodeOf,
      ExpeditedLength, Expedited;
    CommandNumber(f.data[0]);
  }

  /** Starting and giving up: refused without a trace for a bad node, an empty payload or a
      transfer in progress, in that order; giving up at rest does nothing. */
  lemma StartsIff(c: Client, node: Byte, idx: U16, sub: Byte, data: seq<Byte>, now: nat, code: AbortCode)
    ensures var (c', error) := c.BeginUpload(node, idx, sub, now);
            && (error == Some(InvalidArgument) <==> node == 0 || node > 127)
            && (error == Some(Busy) <==> 1 <= node <= 127 && c.exchange != Rest)
            && (error == None <==> 1 <= node <= 127 && c.exchange == Rest)
            && (error == None ==> c'.exchange == UploadInit(node, idx, sub))
            && (error == None ==> c'.deadline == Some(now + c.timeout))
            && (error != None ==> c' == c)
    ensures var (c', error) := c.BeginDownload(node, idx, sub, data, now);
            && (error == Some(InvalidArgument) <==> node == 0 || node > 127 || data == [])
            && (error == Some(Busy) <==> 1 <= node <= 127 && data != [] && c.exchange != Rest)
            && (error == None <==> 1 <= node <= 127 && data != [] && c.exchange == Rest)
            && (error == None ==> c'.exchange == DownloadInit(node, idx, sub, data))
            && (error == None ==> c'.deadline == Some(now + c.timeout))
            && (error != None ==> c' == c)
    ensures c.exchange == Rest ==> c.AbortWith(code) == c
  {
  }

  // ----- what a completed transfer means -----

  /** Bodies of the frames from `node` with command `cs`. */
  function Heard(es: seq<Event>, node: Byte, cs: Byte): seq<Payload> {
    if es == [] then []
    else if HeardIn(Final(es), node, cs) then Heard(Front(es), node, cs) + [Final(es).frame.data]
    else Heard(Front(es), node, cs)
  }

  predicate HeardIn(e: Event, node: Byte, cs: Byte) {
    e.Frame? && NodeOfTsdo(e.frame.cobId) == Some(node) && Specifier(e.frame.data[0]) == cs
  }

  ghost predicate TogglesAlternate(ds: seq<Payload>) {
    forall k :: 0 <= k < |ds| ==> Toggle(ds[k][0]) == Parity(k)
  }

  lemma TogglesStep(ds: seq<Payload>, d: Payload)
    ensures TogglesAlternate([])
    ensures TogglesAlternate(ds) && Toggle(d[0]) == Parity(|ds|) ==> TogglesAlternate(ds + [d])
  {
  }

  /** Event `i` is the response that opened the upload `x`; all segments heard from the
      server since then alternate their toggles, are not final, and make up the bytes
      received. */
  ghost predicate UploadHistory(es: seq<Event>, i: nat, x: Exchange)
    requires x.UploadSegments?
  {
    && i < |es| && HeardIn(es[i], x.node, SCS_INIT_UPLOAD) && SameObject(x, es[i].frame.data)
    && x.expected == Announced(es[i].frame.data)
    && var segs := Heard(es[i + 1..], x.node, SCS_UPLOAD_SEGMENT);
       && |segs| == x.count && TogglesAlternate(segs) && x.received == Concat(segs)
       && forall k :: 0 <= k < |segs| ==> !FinalSegment(segs[k][0])
  }

  lemma HeardStep(es: seq<Event>, i: nat, node: Byte, cs: Byte)
    requires 0 <= i < |es| - 1
    ensures Front(es)[i] == es[i]
    ensures Heard(es[i + 1..], node, cs)
         == if HeardIn(Final(es), node, cs) then Heard(Front(es)[i + 1..], node, cs) + [Final(es).frame.data]
            else Heard(Front(es)[i + 1..], node, cs)
  {
    assert Front(es[i + 1..]) == Front(es)[i + 1..];
    assert Final(es[i + 1..]) == Final(es);
  }

  /** How an upload in progress can come about in one step. */
  lemma UploadStep(c: Client, e: Event)
    requires Apply(c, e).0.exchange.UploadSegments?
    ensures var x, x' := c.exchange, Apply(c, e).0.exchange;
            || (x' == x && !HeardIn(e, x.node, SCS_UPLOAD_SEGMENT))
            || (&& x.UploadInit? && HeardIn(e, x.node, SCS_INIT_UPLOAD) && SameObject(x, e.frame.data)
                && x' == UploadSegments(x.node, x.idx, x.sub, [], 0, Announced(e.frame.data)))
            || (&& x.UploadSegments? && HeardIn(e, x.node, SCS_UPLOAD_SEGMENT)
                && Toggle(e.frame.data[0]) == Parity(x.count) && !FinalSegment(e.frame.data[0])
                && x' == x.(received := x.received + Carried(e.frame.data), count := x.count + 1))
  {
    hide Toggle, Expedited, SizeIndicated, ExpeditedLength, FinalSegment, AbortBody, LastChunk,
      DownloadSegmentRequest, UploadSegmentRequest, InitUploadRequest, InitDownloadRequest, IndexOf, SizeOf,
      AbortCodeOf, NodeOfTsdo, Specifier;
  }

  lemma {:induction false} UploadsAreWhatWasHeard(c: Client, es: seq<Event>) returns (i: nat)
    requires Fresh(c) && After(c, es).exchange.UploadSegments?
    ensures UploadHistory(es, i, After(c, es).exchange)
    decreases |es|
  {
    hide Apply, IndexOf, SubOf, Announced, Toggle, FinalSegment, Carried, Specifier, NodeOfTsdo, Concat,
      TogglesAlternate;
    var b, e := After(c, Front(es)), Final(es);
    UploadStep(b, e);
    if b.exchange.UploadSegments? {
      i := UploadsAreWhatWasHeard(c, Front(es));
      HeardStep(es, i, b.exchange.node, SCS_UPLOAD_SEGMENT);
      if HeardIn(e, b.exchange.node, SCS_UPLOAD_SEGMENT) {
        ConcatStep(Heard(Front(es)[i + 1..], b.exchange.node, SCS_UPLOAD_SEGMENT), e.frame.data);
        TogglesStep(Heard(Front(es)[i + 1..], b.exchange.node, SCS_UPLOAD_SEGMENT), e.frame.data);
      }
    } else {
      i := |es| - 1;
      assert es[i + 1..] == [];
      ConcatNothing();
      TogglesStep([], e.frame.data);
    }
  }

  /** A segmented upload that completes returns the concatenation of the segments heard
      since its opening response, their toggles running 0, 1, 0, ..., only the last of
      them final, and of the announced length if one was announced. */
  lemma CompletedUploadIsWhatWasHeard(c: Client, es: seq<Event>, e: Event) returns (i: nat)
    requires Fresh(c) && After(c, es).exchange.UploadSegments?
    requires Apply(After(c, es), e).1.Done?
    ensures var x := After(c, es).exchange;
            && UploadHistory(es, i, x) && HeardIn(e, x.node, SCS_UPLOAD_SEGMENT) && FinalSegment(e.frame.data[0])
            && var segs := Heard(es[i + 1..], x.node, SCS_UPLOAD_SEGMENT) + [e.frame.data];
               var announced := Announced(es[i].frame.data);
               && TogglesAlternate(segs) && Apply(After(c, es), e).1 == Done(UploadCompleted(Concat(segs)))
               && (announced.Some? ==> announced.value == |Concat(segs)|)
  {
    hide Apply, IndexOf, SubOf, Announced, Toggle, FinalSegment, Carried, Specifier, NodeOfTsdo;
    var x := After(c, es).exchange;
    i := UploadsAreWhatWasHeard(c, es);
    UploadEnd(After(c, es), e);
    ConcatStep(Heard(es[i + 1..], x.node, SCS_UPLOAD_SEGMENT), e.frame.data);
  }

  lemma UploadEnd(c: Client, e: Event)
    requires c.exchange.UploadSegments? && Apply(c, e).1.Done?
    ensures var x := c.exchange;
            && HeardIn(e, x.node, SCS_UPLOAD_SEGMENT) && FinalSegment(e.frame.data[0])
            && Toggle(e.frame.data[0]) == Parity(x.count)
            && Apply(c, e).1 == Done(UploadCompleted(x.received + Carried(e.frame.data)))
            && (x.expected.Some? ==> x.expected.value == |x.received + Carried(e.frame.data)|)
  {
    hide Toggle, Expedited, SizeIndicated, ExpeditedLength, FinalSegment, AbortBody, LastChunk,
      UploadSegmentRequest, IndexOf, SizeOf, AbortCodeOf, NodeOfTsdo, Specifier;
  }

  /** The event puts a frame into the slot: a new one, or one for a transfer that moved. */
  predicate Queues(c: Client, c': Client) { c'.tx.Some? && (c'.tx != c.tx || c'.exchange != c.exchange) }

  /** Bodies the client queued at event `i` or later. */
  function Queued(c: Client, es: seq<Event>, i: nat): seq<Payload>
    decreases |es|
  {
    if |es| <= i then []
    else if Queues(After(c, Front(es)), After(c, es)) then Queued(c, Front(es), i) + [After(c, es).tx.value.data]
    else Queued(c, Front(es), i)
  }

  /** Nothing else is ever queued: an event that leaves a transfer where it is leaves its
      request in the slot, or takes it out. */
  lemma SlotFollowsTheTransfer(c: Client, e: Event)
    requires c.exchange != Rest && Apply(c, e).0.exchange == c.exchange
    ensures Apply(c, e).0.tx == c.tx || (e.Poll? && Apply(c, e).0.tx == None)
  {
    hide Toggle, Expedited, SizeIndicated, ExpeditedLength, FinalSegment, SegmentLength, AbortBody, LastChunk,
      DownloadSegmentRequest, UploadSegmentRequest, InitUploadRequest, InitDownloadRequest, IndexOf, SizeOf,
      AbortCodeOf, NodeOfTsdo, Specifier;
  }

  /** Event `i` is the acknowledgement that opened the download `x`; since then every
      segment before the one on the wire was acknowledged with its own toggle, and the
      segments queued carry the payload from its start, in order, each byte once. */
  ghost predicate DownloadHistory(c: Client, es: seq<Event>, i: nat, x: Exchange)
    requires x.DownloadSegments?
  {
    && i < |es| && HeardIn(es[i], x.node, SCS_INIT_DOWNLOAD) && SameObject(x, es[i].frame.data)
    && var acks := Heard(es[i + 1..], x.node, SCS_DOWNLOAD_SEGMENT);
       var queued := Queued(c, es, i);
       && |acks| == x.acked && TogglesAlternate(acks)
       && |queued| == x.acked + 1 && TogglesAlternate(queued) && Concat(queued) == Upto(x.data, x.acked + 1)
  }

  /** How a segmented download in progress can come about in one step. */
  lemma DownloadStep(c: Client, e: Event)
    requires Apply(c, e).0.exchange.DownloadSegments?
    ensures var x, c' := c.exchange, Apply(c, e).0;
            var x' := c'.exchange;
            || (x' == x && !HeardIn(e, x.node, SCS_DOWNLOAD_SEGMENT))
            || (&& c'.tx.Some? && c'.tx.value.data == DownloadSegmentRequest(x'.data, x'.acked)
                && x.DownloadInit? && HeardIn(e, x.node, SCS_INIT_DOWNLOAD) && SameObject(x, e.frame.data)
                && x' == DownloadSegments(x.node, x.idx, x.sub, x.data, 0))
            || (&& c'.tx.Some? && c'.tx.value.data == DownloadSegmentRequest(x'.data, x'.acked)
                && x.DownloadSegments? && HeardIn(e, x.node, SCS_DOWNLOAD_SEGMENT)
                && Toggle(e.frame.data[0]) == Parity(x.acked) && x' == x.(acked := x.acked + 1))
  {
    hide Toggle, Expedited, SizeIndicated, ExpeditedLength, FinalSegment, AbortBody, LastChunk,
      DownloadSegmentRequest, UploadSegmentRequest, InitUploadRequest, InitDownloadRequest, IndexOf, SizeOf,
      AbortCodeOf, NodeOfTsdo, Specifier;
  }

  lemma SegmentRequestFields(data: seq<Byte>, k: nat)
    ensures var d := DownloadSegmentRequest(data, k); Toggle(d[0]) == Parity(k) && Carried(d) == Chunk(data, k)
  {
    var chunk := Chunk(data, k);
    SegmentCommandDecodes(CCS_DOWNLOAD_SEGMENT, Parity(k), |chunk|, LastChunk(data, k));
    SegmentBodyFields(SegmentCommand(CCS_DOWNLOAD_SEGMENT, Parity(k), |chunk|, LastChunk(data, k)), chunk);
  }

  lemma QueuedStep(c: Client, es: seq<Event>, i: nat)
    requires i < |es|
    ensures Queued(c, es, i) ==
      if Queues(After(c, Front(es)), After(c, es)) then Queued(c, Front(es), i) + [After(c, es).tx.value.data]
      else Queued(c, Front(es), i)
    ensures i == |es| - 1 ==> Queued(c, Front(es), i) == []
  {
  }

  lemma HeardNothing(node: Byte, cs: Byte)
    ensures Heard([], node, cs) == []
  {
  }

  lemma AfterLast(c: Client, es: seq<Event>)
    ensures After(c, es) == if es == [] then c else Apply(After(c, Front(es)), Final(es)).0
  {
  }

  lemma DownloadBegins(c: Client, es: seq<Event>)
    requires es != [] && After(c, es).exchange.DownloadSegments? && !After(c, Front(es)).exchange.DownloadSegments?
    ensures DownloadHistory(c, es, |es| - 1, After(c, es).exchange)
  {
    hide Apply, IndexOf, SubOf, Toggle, Carried, Specifier, NodeOfTsdo, DownloadSegmentRequest, Upto, Chunk, Queued,
      Concat, TogglesAlternate, Play, Heard;
    AfterLast(c, es);
    var x', i, d := After(c, es).exchange, |es| - 1, After(c, es).tx;
    DownloadStep(After(c, Front(es)), Final(es));
    SegmentRequestFields(x'.data, 0);
    ChunksConcatenate(x'.data, 0);
    assert es[i + 1..] == [];
    HeardNothing(x'.node, SCS_DOWNLOAD_SEGMENT);
    QueuedStep(c, es, i);
    TogglesStep([], d.value.data);
    ConcatStep([], d.value.data);
    ConcatNothing();
  }

  lemma DownloadGoesOn(c: Client, es: seq<Event>, i: nat)
    requires es != [] && After(c, es).exchange.DownloadSegments? && After(c, Front(es)).exchange.DownloadSegments?
    requires DownloadHistory(c, Front(es), i, After(c, Front(es)).exchange)
    ensures DownloadHistory(c, es, i, After(c, es).exchange)
  {
    hide Apply, IndexOf, SubOf, Toggle, Carried, Specifier, NodeOfTsdo, DownloadSegmentRequest, Upto, Chunk, Queued,
      Concat, TogglesAlternate, Play, Heard;
    AfterLast(c, es);
    var b, e, x' := After(c, Front(es)), Final(es), After(c, es).exchange;
    DownloadStep(b, e);
    HeardStep(es, i, x'.node, SCS_DOWNLOAD_SEGMENT);
    QueuedStep(c, es, i);
    if b.exchange == x' {
      SlotFollowsTheTransfer(b, e);
    } else {
      var d := After(c, es).tx.value.data;
      SegmentRequestFields(x'.data, x'.acked);
      ChunksConcatenate(x'.data, x'.acked);
      ConcatStep(Queued(c, Front(es), i), d);
      TogglesStep(Queued(c, Front(es), i), d);
      TogglesStep(Heard(Front(es)[i + 1..], x'.node, SCS_DOWNLOAD_SEGMENT), e.frame.data);
    }
  }

  lemma {:induction false} DownloadsQueueInOrder(c: Client, es: seq<Event>) returns (i: nat)
    requires Fresh(c) && After(c, es).exchange.DownloadSegments?
    ensures DownloadHistory(c, es, i, After(c, es).exchange)
    decreases |es|
  {
    hide Apply, Play, DownloadHistory;
    AfterLast(c, es);
    if After(c, Front(es)).exchange.DownloadSegments? {
      i := DownloadsQueueInOrder(c, Front(es));
      DownloadGoesOn(c, es, i);
    } else {
      i := |es| - 1;
      DownloadBegins(c, es);
    }
  }

  /** A segmented download that completes has queued exactly its payload, and every
      segment was acknowledged with its own toggle. */
  lemma CompletedDownloadQueuedThePayload(c: Client, es: seq<Event>, e: Event) returns (i: nat)
    requires Fresh(c) && After(c, es).exchange.DownloadSegments?
    requires Apply(After(c, es), e).1.Done?
    ensures var x := After(c, es).exchange;
            && DownloadHistory(c, es, i, x) && HeardIn(e, x.node, SCS_DOWNLOAD_SEGMENT)
            && var acks := Heard(es[i + 1..], x.node, SCS_DOWNLOAD_SEGMENT) + [e.frame.data];
               && TogglesAlternate(acks) && |acks| == |Queued(c, es, i)| && Concat(Queued(c, es, i)) == x.data
  {
    hide Apply, IndexOf, SubOf, Toggle, Carried, Specifier, NodeOfTsdo, DownloadSegmentRequest, Upto, Chunk;
    var x := After(c, es).exchange;
    i := DownloadsQueueInOrder(c, es);
    DownloadEnd(After(c, es), e);
    ChunksConcatenate(x.data, x.acked);
  }

  lemma DownloadEnd(c: Client, e: Event)
    requires c.exchange.DownloadSegments? && Apply(c, e).1.Done?
    ensures var x := c.exchange;
            && HeardIn(e, x.node, SCS_DOWNLOAD_SEGMENT) && Toggle(e.frame.data[0]) == Parity(x.acked)
            && LastChunk(x.data, x.acked) && Apply(c, e).1 == Done(DownloadCompleted)
  {
    hide Toggle, Expedited, SizeIndicated, ExpeditedLength, FinalSegment, AbortBody, LastChunk,
      DownloadSegmentRequest, IndexOf, SizeOf, AbortCodeOf, NodeOfTsdo, Specifier;
  }
}
