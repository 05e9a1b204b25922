/** What a client makes of frames it hears one after another, whoever sent them and for
    which transfer. */
module Lineups {
  import opened Segments
  import opened Wire
  import opened ClientSpec
  import opened ServerSpec
  import opened Protocol

  // ----- the client alone -----

  /** Where a frame moves the client, and what it then reports. */
  function Take(x: Exchange, f: SdoFrame): (Exchange, Result) {
    var (c, r) := Client(0, x, None, None).Handle(f, 0);
    (c.exchange, r)
  }

  /** The request the client queues on reaching `x`. */
  function Asked(x: Exchange): Option<SdoFrame> {
    match x
    case UploadSegments(node, _, _, _, count, _) => Some(SdoFrame(RsdoId(node), UploadSegmentRequest(Parity(count))))
    case DownloadSegments(node, _, _, data, acked) => Some(SdoFrame(RsdoId(node), DownloadSegmentRequest(data, acked)))
    case _ => None
  }

  lemma TakeIsHandle(c: Client, f: SdoFrame, now: nat)
    ensures var (c', r) := c.Handle(f, now);
            && (c'.exchange, r) == Take(c.exchange, f)
            && (c'.exchange == c.exchange ==> c' == c && r == Pending)
            && (c'.exchange != c.exchange && c'.exchange != Rest ==> r == Pending && c'.tx == Asked(c'.exchange))
            && (c'.exchange != c.exchange && c'.exchange == Rest ==>
                  && r != Pending && (r.Done? ==> c'.tx == None)
                  && (c'.tx.Some? ==> exists code :: c' == c.AbortWith(code)))
  {
    hide Toggle, Expedited, SizeIndicated, ExpeditedLength, SegmentLength, FinalSegment, AbortBody, LastChunk,
      DownloadSegmentRequest, UploadSegmentRequest, IndexOf, SizeOf, AbortCodeOf, NodeOfTsdo, Specifier;
    var c', r := c.Handle(f, now).0, c.Handle(f, now).1;
    if c'.exchange == Rest && c.exchange != Rest && c'.tx.Some? {
      assert c' == c.AbortWith(ToggleBitNotAlternated) || c' == c.AbortWith(DataTypeLengthMismatch);
    }
  }

  /** A transfer goes through its stages one by one. */
  lemma TakeStages(x: Exchange, f: SdoFrame)
    ensures var (x', r) := Take(x, f);
            match x
            case Rest => x' == Rest && r == Pending
            case UploadInit(node, idx, sub) =>
              || x' == x
              || x' == Rest
              || (x'.UploadSegments? && (x'.node, x'.idx, x'.sub, x'.count) == (node, idx, sub, 0))
            case UploadSegments(node, idx, sub, _, count, _) =>
              || x' == x
              || x' == Rest
              || (x'.UploadSegments? && (x'.node, x'.idx, x'.sub, x'.count) == (node, idx, sub, count + 1))
            case DownloadInit(node, idx, sub, data) =>
              || x' == x || (x' == Rest && (r.Done? ==> |data| <= 4 && r.outcome.DownloadCompleted?))
              || (|data| > 4 && x' == DownloadSegments(node, idx, sub, data, 0))
            case DownloadSegments(node, idx, sub, data, acked) =>
              || x' == x || (x' == Rest && (r.Done? ==> LastChunk(data, acked) && r.outcome.DownloadCompleted?))
              || (!LastChunk(data, acked) && x' == DownloadSegments(node, idx, sub, data, acked + 1))
  {
    hide Toggle, Expedited, SizeIndicated, ExpeditedLength, SegmentLength, FinalSegment, AbortBody, LastChunk,
      DownloadSegmentRequest, UploadSegmentRequest, IndexOf, SizeOf, AbortCodeOf, NodeOfTsdo, Specifier;
  }

  /** A frame that moved the client does not move it on again. */
  lemma TakenOnce(x: Exchange, f: SdoFrame)
    ensures var x' := Take(x, f).0;
            x' != x && x' != Rest ==> Take(x', f) == (x', Pending) || Take(x', f).1.Failed?
  {
    hide Toggle, Expedited, SizeIndicated, ExpeditedLength, SegmentLength, FinalSegment, AbortBody, LastChunk,
      DownloadSegmentRequest, UploadSegmentRequest, IndexOf, SizeOf, AbortCodeOf, NodeOfTsdo, Specifier;
  }

  // ----- line-ups -----

  /** The client after hearing these frames of `line`, by their places. */
  function Hear(s: Session, line: seq<SdoFrame>, qs: seq<nat>): (Exchange, Result) {
    if qs == [] then (s.ClientAt(0), Pending)
    else if Final(qs) < |line| then Take(Hear(s, line, Front(qs)).0, line[Final(qs)])
    else Hear(s, line, Front(qs))
  }

  /** Frames that move the client one after another: taken from `line` in its order, and
      none past place `base` before the client has asked for it. */
  ghost predicate Lineup(s: Session, line: seq<SdoFrame>, base: nat, qs: seq<nat>) {
    qs != [] ==>
      && Lineup(s, line, base, Front(qs))
      && Hear(s, line, Front(qs)).1 == Pending
      && Final(qs) < |line|
      && Final(qs) < base + |qs|
      && (Front(qs) != [] ==> Final(Front(qs)) < Final(qs))
      && Hear(s, line, qs).0 != Hear(s, line, Front(qs)).0
  }

  function Lowest(qs: seq<nat>): nat { if qs == [] then 0 else Final(qs) }

  function Passed(qs: seq<nat>): nat { if qs == [] then 0 else Final(qs) + 1 }

  lemma HearNothing(s: Session, line: seq<SdoFrame>)
    ensures Hear(s, line, []) == (s.ClientAt(0), Pending)
  {
  }

  lemma HearOne(s: Session, line: seq<SdoFrame>, qs: seq<nat>, a: nat)
    requires a < |line|
    ensures Hear(s, line, qs + [a]) == Take(Hear(s, line, qs).0, line[a])
  {
    assert Front(qs + [a]) == qs;
  }

  lemma {:induction false} LineupStage(s: Session, line: seq<SdoFrame>, base: nat, qs: seq<nat>)
    requires s.Valid() && Lineup(s, line, base, qs)
    ensures var (x, r) := Hear(s, line, qs);
            && (x == Rest <==> r != Pending)
            && (r.Done? && !s.upload ==> |qs| == s.Last() + 1 && r == Done(DownloadCompleted))
            && (x != Rest && !s.upload ==> |qs| <= s.Last() && x == s.ClientAt(|qs|))
            && (x != Rest && s.upload && qs == [] ==> x == s.ClientAt(0))
            && (x != Rest && s.upload && qs != [] ==> x.UploadSegments? && x.count == |qs| - 1)
            && (x != Rest && s.upload && qs != [] ==> (x.node, x.idx, x.sub) == (s.node, s.idx, s.sub))
    decreases |qs|
  {
    hide Take, LastChunk, Session.Last;
    LastRequest(s, |qs|);
    if qs != [] {
      LineupStage(s, line, base, Front(qs));
      LastRequest(s, |qs| - 1);
      var y := Hear(s, line, Front(qs)).0;
      TakeStages(y, line[Final(qs)]);
      TakeIsHandle(Client(0, y, None, None), line[Final(qs)], 0);
    }
  }

  /** A frame that moves the client joins the line-up: it cannot be the one just heard. */
  lemma LineupGrows(s: Session, line: seq<SdoFrame>, base: nat, qs: seq<nat>, a: nat)
    requires Lineup(s, line, base, qs) && Hear(s, line, qs).1 == Pending && Lowest(qs) <= a < |line| && a <= base + |qs|
    requires var (x, r) := Take(Hear(s, line, qs).0, line[a]); x != Hear(s, line, qs).0 && !r.Failed?
    requires Hear(s, line, qs).0 != Rest
    ensures Lineup(s, line, base, qs + [a])
  {
    hide Take;
    assert Front(qs + [a]) == qs && Final(qs + [a]) == a;
    HearOne(s, line, qs, a);
    if qs != [] && Final(qs) == a {
      TakenOnce(Hear(s, line, Front(qs)).0, line[a]);
    }
  }

  lemma LineupReach(s: Session, line: seq<SdoFrame>, base: nat, qs: seq<nat>)
    requires Lineup(s, line, base, qs)
    ensures Passed(qs) <= base + |qs| || qs == []
  {
  }

  lemma FirstPasses(s: Session, line: seq<SdoFrame>, base: nat, qs: seq<nat>, q: nat)
    requires Lineup(s, line, base, qs + [q])
    ensures Lineup(s, line, base, qs) && Hear(s, line, qs).1 == Pending && Passed(qs) <= q < |line| && q <= base + |qs|
    ensures Hear(s, line, qs + [q]) == Take(Hear(s, line, qs).0, line[q])
    ensures Hear(s, line, qs + [q]).0 != Hear(s, line, qs).0
    ensures Passed(qs + [q]) == q + 1
  {
    hide Take;
    assert Front(qs + [q]) == qs && Final(qs + [q]) == q;
  }

  // ----- line-ups of a write -----

  /** A frame the client takes for answer `j` of a write: the initiate acknowledgement of the
      object, or any segment acknowledgement of the node with the right toggle. */
  predicate Acks(s: Session, f: SdoFrame, j: nat) {
    && NodeOfTsdo(f.cobId) == Some(s.node)
    && if j == 0 then Specifier(f.data[0]) == SCS_INIT_DOWNLOAD && IndexOf(f.data) == s.idx && SubOf(f.data) == s.sub
       else Specifier(f.data[0]) == SCS_DOWNLOAD_SEGMENT && Toggle(f.data[0]) == Parity(j - 1)
  }

  lemma AcksMove(s: Session, f: SdoFrame, j: nat)
    requires s.Valid() && !s.upload && j <= s.Last()
    ensures var (x, r) := Take(s.ClientAt(j), f);
            && (Acks(s, f, j) ==>
              (x, r) == if j < s.Last() then (s.ClientAt(j + 1), Pending) else (Rest, Done(DownloadCompleted)))
            && (!Acks(s, f, j) ==> x == s.ClientAt(j) || r.Failed?)
  {
    hide Toggle, Specifier, NodeOfTsdo, IndexOf, AbortCodeOf, LastChunk, DownloadSegmentRequest, AbortBody,
      Session.Last;
    LastRequest(s, j);
    LastRequest(s, 0);
  }

  lemma AnswersAck(s: Session, i: nat, j: nat)
    requires s.Valid() && !s.upload
    ensures Acks(s, s.Resp(i), j) <==> (i == 0 && j == 0) || (i >= 1 && j >= 1 && Parity(i - 1) == Parity(j - 1))
  {
    hide Session.ResponseBody, NodeOfTsdo, Specifier, Toggle, IndexOf;
    DownloadResponseFields(s, i);
  }

  /** A line-up of a write, frame by frame. */
  lemma {:induction false} WriteLineup(s: Session, line: seq<SdoFrame>, base: nat, qs: seq<nat>, i: nat)
    requires s.Valid() && !s.upload && Lineup(s, line, base, qs) && !Hear(s, line, qs).1.Failed? && i < |qs|
    ensures |qs| <= s.Last() + 1 && qs[i] <= base + i && qs[i] < |line| && Acks(s, line[qs[i]], i)
    ensures i > 0 ==> qs[i - 1] < qs[i]
    decreases |qs|
  {
    hide Take, Acks, Session.Last;
    var n := |qs| - 1;
    LineupStage(s, line, base, Front(qs));
    AcksMove(s, line[Final(qs)], n);
    if i < n {
      WriteLineup(s, line, base, Front(qs), i);
    }
  }

  lemma {:induction false} InStep(s: Session, line: seq<SdoFrame>, base: nat, qs: seq<nat>, i: nat, j: nat)
    requires s.Valid() && !s.upload && Lineup(s, line, base, qs) && !Hear(s, line, qs).1.Failed?
    requires i <= j < |qs| && qs[i] == base + i
    ensures qs[j] == base + j
    decreases j - i
  {
    if i < j {
      InStep(s, line, base, qs, i, j - 1);
      WriteLineup(s, line, base, qs, j);
    }
  }

  lemma StagesDiffer(s: Session, j: nat)
    requires !s.upload
    ensures s.ClientAt(j) != s.ClientAt(j + 1) && s.ClientAt(j) != Rest
  {
  }

  // ----- line-ups of a read -----

  /** A frame the client takes for the opening answer of a read. */
  predicate Opens(s: Session, f: SdoFrame) {
    && NodeOfTsdo(f.cobId) == Some(s.node) && Specifier(f.data[0]) == SCS_INIT_UPLOAD
    && IndexOf(f.data) == s.idx && SubOf(f.data) == s.sub
  }

  /** A frame the client takes for segment `i` of a read, of whichever object. */
  predicate Segment(s: Session, f: SdoFrame, i: nat) {
    && NodeOfTsdo(f.cobId) == Some(s.node) && Specifier(f.data[0]) == SCS_UPLOAD_SEGMENT
    && Toggle(f.data[0]) == Parity(i)
  }

  lemma TakesOpening(s: Session, f: SdoFrame)
    requires s.Valid() && s.upload
    ensures var (x, r) := Take(s.ClientAt(0), f);
            if !Opens(s, f) then x == s.ClientAt(0) || r.Failed?
            else if Expedited(f.data[0])
            then (x, r) == (Rest, Done(UploadCompleted(f.data[4..4 + ExpeditedLength(f.data[0])])))
            else (x, r) == (UploadSegments(s.node, s.idx, s.sub, [], 0, Announced(f.data)), Pending)
  {
    hide Toggle, Specifier, NodeOfTsdo, IndexOf, SizeOf, SizeIndicated, Expedited, AbortCodeOf, UploadSegmentRequest,
      AbortBody;
  }

  lemma TakesSegment(s: Session, x: Exchange, f: SdoFrame)
    requires x.UploadSegments? && x.node == s.node
    ensures var (x', r) := Take(x, f);
            var all := x.received + Carried(f.data);
            if !Segment(s, f, x.count) then x' == x || r.Failed?
            else if !FinalSegment(f.data[0]) then (x', r) == (x.(received := all, count := x.count + 1), Pending)
            else if x.expected.Some? && x.expected.value != |all| then r.Failed?
            else (x', r) == (Rest, Done(UploadCompleted(all)))
  {
    hide Toggle, Specifier, NodeOfTsdo, IndexOf, SizeOf, FinalSegment, SegmentLength, AbortCodeOf,
      UploadSegmentRequest, AbortBody;
  }

  /** The bodies of a line-up after its opening. */
  function Bodies(line: seq<SdoFrame>, qs: seq<nat>): seq<Payload> {
    if |qs| <= 1 then [] else Bodies(line, Front(qs)) + if Final(qs) < |line| then [line[Final(qs)].data] else []
  }

  /** Places in `line` in its order, none past `base` before it can have been asked for. */
  ghost predicate Rising(line: seq<SdoFrame>, base: nat, qs: seq<nat>) {
    && (forall i: nat :: i < |qs| ==> qs[i] < |line| && qs[i] <= base + i)
    && (forall i: nat :: 1 <= i < |qs| ==> qs[i - 1] < qs[i])
  }

  /** An opening answer of the object that is not expedited, and segments of the node with
      alternating toggles, none of them final. */
  ghost predicate SpellsSoFar(s: Session, line: seq<SdoFrame>, base: nat, qs: seq<nat>) {
    && qs != []
    && Rising(line, base, qs)
    && Opens(s, line[qs[0]])
    && !Expedited(line[qs[0]].data[0])
    && forall i: nat :: 1 <= i < |qs| ==> Segment(s, line[qs[i]], i - 1) && !FinalSegment(line[qs[i]].data[0])
  }

  /** An opening answer of the object that is expedited; or one that is not, with segments of
      the node whose toggles alternate, of which the last one alone is final and which
      together have the announced size, if one is announced. */
  ghost predicate Spells(s: Session, line: seq<SdoFrame>, base: nat, qs: seq<nat>) {
    && qs != []
    && Rising(line, base, qs)
    && Opens(s, line[qs[0]])
    && var d := line[qs[0]].data;
       if Expedited(d[0]) then |qs| == 1
       else
         && |qs| >= 2
         && (forall i: nat :: 1 <= i < |qs| ==>
               Segment(s, line[qs[i]], i - 1) && (FinalSegment(line[qs[i]].data[0]) <==> i == |qs| - 1))
         && (Announced(d).Some? ==> Announced(d).value == |Concat(Bodies(line, qs))|)
  }

  /** The value such frames spell. */
  function Spelled(line: seq<SdoFrame>, qs: seq<nat>): seq<Byte>
    requires qs != [] && qs[0] < |line|
  {
    var d := line[qs[0]].data;
    if Expedited(d[0]) then d[4..4 + ExpeditedLength(d[0])] else Concat(Bodies(line, qs))
  }

  lemma RisingFront(line: seq<SdoFrame>, base: nat, qs: seq<nat>)
    requires qs != []
    ensures Rising(line, base, qs) <==>
      && Rising(line, base, Front(qs))
      && Final(qs) < |line|
      && Final(qs) < base + |qs|
      && (Front(qs) != [] ==> Final(Front(qs)) < Final(qs))
  {
    var n := |qs| - 1;
    assert forall i: nat :: i < n ==> Front(qs)[i] == qs[i];
  }

  lemma SoFarFront(s: Session, line: seq<SdoFrame>, base: nat, qs: seq<nat>)
    requires |qs| >= 2
    ensures SpellsSoFar(s, line, base, qs) <==>
      && SpellsSoFar(s, line, base, Front(qs))
      && Rising(line, base, qs)
      && Segment(s, line[Final(qs)], |qs| - 2)
      && !FinalSegment(line[Final(qs)].data[0])
  {
    hide Opens, Segment, FinalSegment, Expedited, Rising;
    RisingFront(line, base, qs);
    var n := |qs| - 1;
    assert forall i: nat :: i < n ==> Front(qs)[i] == qs[i];
  }

  lemma SpellsFront(s: Session, line: seq<SdoFrame>, base: nat, qs: seq<nat>)
    requires |qs| >= 2
    ensures Spells(s, line, base, qs) <==>
      && SpellsSoFar(s, line, base, Front(qs))
      && Rising(line, base, qs)
      && Segment(s, line[Final(qs)], |qs| - 2)
      && FinalSegment(line[Final(qs)].data[0])
      && (var size := Announced(line[qs[0]].data); size.Some? ==> size.value == |Concat(Bodies(line, qs))|)
  {
    hide Opens, Segment, FinalSegment, Expedited, Rising, Announced, Concat;
    RisingFront(line, base, qs);
    var n := |qs| - 1;
    assert forall i: nat :: i < n ==> Front(qs)[i] == qs[i];
  }

  /** A read is under way after a line-up exactly when the frames spell it so far. */
  lemma {:induction false} SoFarIsALineup(s: Session, line: seq<SdoFrame>, base: nat, qs: seq<nat>)
    requires s.Valid() && s.upload && qs != []
    ensures SpellsSoFar(s, line, base, qs) <==> Lineup(s, line, base, qs) && Hear(s, line, qs).1 == Pending
    ensures SpellsSoFar(s, line, base, qs) ==>
      Hear(s, line, qs).0 ==
        UploadSegments(s.node, s.idx, s.sub, Concat(Bodies(line, qs)), |qs| - 1, Announced(line[qs[0]].data))
    decreases |qs|
  {
    hide Take, Opens, Segment, Expedited, FinalSegment, Concat, Carried, Announced, SpellsSoFar, Rising;
    RisingFront(line, base, qs);
    if |qs| == 1 {
      OneFrame(s, line, base, qs);
    } else {
      SoFarIsALineup(s, line, base, Front(qs));
      SoFarFront(s, line, base, qs);
      if Lineup(s, line, base, Front(qs)) && Hear(s, line, Front(qs)).1 == Pending && Final(qs) < |line| {
        RisingLineup(s, line, base, Front(qs));
        TakesSegment(s, Hear(s, line, Front(qs)).0, line[Final(qs)]);
        TakeIsHandle(Client(0, Hear(s, line, Front(qs)).0, None, None), line[Final(qs)], 0);
        ConcatStep(Bodies(line, Front(qs)), line[Final(qs)].data);
      }
    }
  }

  lemma {:induction false} RisingLineup(s: Session, line: seq<SdoFrame>, base: nat, qs: seq<nat>)
    requires Lineup(s, line, base, qs)
    ensures Rising(line, base, qs)
    decreases |qs|
  {
    hide Hear, Rising;
    if qs != [] {
      RisingLineup(s, line, base, Front(qs));
      RisingFront(line, base, qs);
    } else {
      NothingRises(line, base);
    }
  }

  lemma NothingRises(line: seq<SdoFrame>, base: nat)
    ensures Rising(line, base, [])
  {
  }

  /** A line-up of one frame: the opening answer. */
  lemma OneFrame(s: Session, line: seq<SdoFrame>, base: nat, qs: seq<nat>)
    requires s.Valid() && s.upload && |qs| == 1
    ensures SpellsSoFar(s, line, base, qs) <==> Lineup(s, line, base, qs) && Hear(s, line, qs).1 == Pending
    ensures Spells(s, line, base, qs) <==> Lineup(s, line, base, qs) && Hear(s, line, qs).1.Done?
    ensures SpellsSoFar(s, line, base, qs) ==>
      Hear(s, line, qs).0 ==
        UploadSegments(s.node, s.idx, s.sub, Concat(Bodies(line, qs)), 0, Announced(line[qs[0]].data))
    ensures Spells(s, line, base, qs) ==> Hear(s, line, qs).1 == Done(UploadCompleted(Spelled(line, qs)))
  {
    hide Take, Opens, Segment, Expedited, FinalSegment, Carried, Announced, ExpeditedLength;
    HearNothing(s, line);
    if qs[0] < |line| {
      TakesOpening(s, line[qs[0]]);
    }
  }

  /** A line-up completes a read exactly when its frames spell a value, and it reports that
      value. */
  lemma SpellsIff(s: Session, line: seq<SdoFrame>, base: nat, qs: seq<nat>)
    requires s.Valid() && s.upload
    ensures Spells(s, line, base, qs) <==> Lineup(s, line, base, qs) && Hear(s, line, qs).1.Done?
    ensures Spells(s, line, base, qs) ==> Hear(s, line, qs).1 == Done(UploadCompleted(Spelled(line, qs)))
  {
    hide Take, Opens, Segment, Expedited, FinalSegment, Concat, Carried, Announced, SpellsSoFar, Rising, Spells,
      ExpeditedLength;
    if qs == [] {
      HearNothing(s, line);
      NothingSpells(s, line, base);
    } else if |qs| == 1 {
      OneFrame(s, line, base, qs);
    } else {
      SoFarIsALineup(s, line, base, Front(qs));
      SpellsFront(s, line, base, qs);
      RisingFront(line, base, qs);
      if Lineup(s, line, base, Front(qs)) && Hear(s, line, Front(qs)).1 == Pending && Final(qs) < |line| {
        RisingLineup(s, line, base, Front(qs));
        TakesSegment(s, Hear(s, line, Front(qs)).0, line[Final(qs)]);
        TakeIsHandle(Client(0, Hear(s, line, Front(qs)).0, None, None), line[Final(qs)], 0);
        ConcatStep(Bodies(line, Front(qs)), line[Final(qs)].data);
        NotExpedited(s, line, base, Front(qs));
      }
    }
  }

  lemma NotExpedited(s: Session, line: seq<SdoFrame>, base: nat, qs: seq<nat>)
    requires SpellsSoFar(s, line, base, qs)
    ensures !Expedited(line[qs[0]].data[0])
  {
  }

  lemma NothingSpells(s: Session, line: seq<SdoFrame>, base: nat)
    ensures !Spells(s, line, base, [])
  {
  }

  lemma {:induction false} FirstFrame(s: Session, line: seq<SdoFrame>, base: nat, qs: seq<nat>)
    requires s.Valid() && Lineup(s, line, base, qs) && !Hear(s, line, qs).1.Failed? && qs != []
    ensures qs[0] < |line| && qs[0] <= base && if s.upload then Opens(s, line[qs[0]]) else Acks(s, line[qs[0]], 0)
    decreases |qs|
  {
    hide Take, Opens, Acks, Session.Last;
    if |qs| > 1 {
      FirstFrame(s, line, base, Front(qs));
    } else if s.upload {
      TakesOpening(s, line[qs[0]]);
    } else {
      AcksMove(s, line[qs[0]], 0);
    }
  }

  lemma TakesInTurn(s: Session, n: nat)
    requires s.Valid() && n <= s.Last()
    ensures Take(s.ClientAt(n), s.Resp(n)) ==
      if n < s.Last() then (s.ClientAt(n + 1), Pending) else (Rest, s.FinalResult())
  {
    hide Client.Handle, Session.ResponseBody, Session.ClientAt, Session.FinalResult, Session.Last, Session.RequestBody;
    var c := Client(0, s.ClientAt(n), None, None);
    ClientAdvances(s, c, n, 0);
  }
}
