/** One transfer over a bad bus on which frames of earlier transfers are still on their way
    to the client: what every run keeps. The client may run ahead of the server, so requests
    and answers are followed by number, with gaps. */
module Course {
  import opened Segments
  import opened Wire
  import opened ClientSpec
  import opened ServerSpec
  import opened Protocol
  import opened Lineups
  import opened Channel

  // ----- queues -----

  /** A queue and the slot behind it. */
  function Pipe(q: seq<SdoFrame>, tx: Option<SdoFrame>): seq<SdoFrame> { if tx.Some? then q + [tx.value] else q }

  ghost predicate IsAbort(cobId: U16, f: SdoFrame) { f.cobId == cobId && Specifier(f.data[0]) == CS_ABORT }

  ghost predicate Tagged(f: SdoFrame, tag: int, from: seq<SdoFrame>, lo: nat, hi: nat, cobId: U16) {
    (tag == -1 && IsAbort(cobId, f)) || (lo <= tag < hi <= |from| && f == from[tag])
  }

  /** Every frame of `q` is an abort or one of `from`, in its order, at the place its tag
      says, from place `lo` on and before `hi`. */
  ghost predicate Drawn(q: seq<SdoFrame>, tags: seq<int>, from: seq<SdoFrame>, lo: nat, hi: nat, cobId: U16) {
    && |tags| == |q| && (forall i: nat :: i < |q| ==> Tagged(q[i], tags[i], from, lo, hi, cobId))
    && (forall i: nat, j: nat :: i < j < |q| && tags[i] >= 0 && tags[j] >= 0 ==> tags[i] <= tags[j])
  }

  /** What is left after the head, and the whole of it, start no earlier than the head. */
  lemma DrawnFrom(q: seq<SdoFrame>, tags: seq<int>, from: seq<SdoFrame>, lo: nat, hi: nat, cobId: U16, lo': nat)
    requires Drawn(q, tags, from, lo, hi, cobId) && q != [] && (lo' <= lo || lo' <= tags[0])
    ensures Drawn(q, tags, from, lo', hi, cobId) && Drawn(q[1..], tags[1..], from, lo', hi, cobId)
  {
  }

  lemma DrawnCut(q: seq<SdoFrame>, tags: seq<int>, from: seq<SdoFrame>, lo: nat, hi: nat, cobId: U16, k: nat)
    requires Drawn(q, tags, from, lo, hi, cobId) && k <= |q|
    ensures |tags| == |q| && Drawn(q[..k], tags[..k], from, lo, hi, cobId)
  {
  }

  lemma DrawnPut(q: seq<SdoFrame>, tags: seq<int>, from: seq<SdoFrame>, lo: nat, hi: nat, cobId: U16, f: SdoFrame,
                 tag: int)
    requires Drawn(q, tags, from, lo, hi, cobId) && Tagged(f, tag, from, lo, hi, cobId) && (tag >= 0 ==> tag == hi - 1)
    ensures Drawn(q + [f], tags + [tag], from, lo, hi, cobId)
  {
  }

  lemma DrawnWiden(q: seq<SdoFrame>, tags: seq<int>, from: seq<SdoFrame>, lo: nat, hi: nat, cobId: U16,
                   from': seq<SdoFrame>, hi': nat)
    requires Drawn(q, tags, from, lo, hi, cobId) && from <= from' && hi <= hi' <= |from'|
    ensures Drawn(q, tags, from', lo, hi', cobId)
  {
  }

  // ----- the server under requests that may have gaps -----

  /** All the frames a session can bring: those left over, then the server's own answers,
      which it can give all or none of. */
  function Line(s: Session, left: seq<SdoFrame>, g: nat): seq<SdoFrame> {
    left + seq(g, j requires 0 <= j => s.Resp(j))
  }

  function Requests(s: Session, n: nat): seq<SdoFrame>
    requires s.Valid()
  {
    seq(n + 1, j requires 0 <= j => s.Req(j))
  }

  function Answers(s: Session, store: Store, room: nat): nat {
    var fits := if s.upload then (s.idx, s.sub) in store && |s.bytes| <= room else s.Short() || |s.bytes| <= room;
    if fits then s.Last() + 1 else 0
  }

  /** A download in which the segments of requests up to `r` came in, `m - 1` of them
      accepted: without gaps its bytes are the first ones of the payload. */
  ghost predicate Taking(s: Session, t: Transfer, m: nat, r: nat) {
    && t.Downloading? && t.idx == s.idx && t.sub == s.sub && t.expected == Some(|s.bytes|)
    && 1 <= m <= r + 1 && t.count == m - 1 && |t.acc| == 7 * (m - 1) && r % 2 == (m - 1) % 2
    && (m - 1 == r ==> t.acc == Upto(s.bytes, r))
  }

  ghost predicate ServerIs(s: Session, store0: Store, v: Server, store: Store, m: nat, r: nat) {
    && v.node == s.node
    && m <= r + 1
    && m <= Answers(s, store0, v.room)
    && store == StoreAt(s, store0, m)
    && (|| v.transfer == Idle
        || (1 <= m <= s.Last() && if s.upload then v.transfer == s.ServerAt(m) else Taking(s, v.transfer, m, r)))
  }

  /** The outcome of a request: refused, or answered as answer number `t`. */
  ghost predicate Outcome(s: Session, store0: Store, v: Server, step: Step<Store>, m: nat, m': nat, r': nat) {
    && ServerIs(s, store0, step.server, step.od.state, m', r') && step.server.room == v.room && step.server.tx.Some?
    && ((m' == m && IsAbort(TsdoId(s.node), step.server.tx.value))
        || (m' >= 1 && m <= m' && step.server.tx.value == s.Resp(m' - 1)))
  }

  lemma AbortsAreAborts(s: Session, f: SdoFrame)
    ensures ResponseAbort(s, f) <==> IsAbort(TsdoId(s.node), f)
    ensures RequestAbort(s, f) <==> IsAbort(RsdoId(s.node), f)
  {
  }

  lemma ServerOpens(s: Session, store0: Store, v: Server, store: Store, m: nat, now: nat, refusal: Option<AbortCode>)
    returns (m': nat)
    requires s.Valid() && Reads(s, store0) && (!s.upload ==> |s.bytes| < TWO32) && ServerIs(s, store0, v, store, m, 0)
    ensures Outcome(s, store0, v, v.Handle(s.Req(0), now, Keeper(store, refusal)), m, m', 0)
  {
    hide Server.Handle, Session.RequestBody, Session.ResponseBody, Session.Last, ResponseAbort, IsAbort;
    var od := Keeper(store, refusal);
    var step := v.Handle(s.Req(0), now, od);
    LastRequest(s, 0);
    ConfigurationIsFixed(v, s.Req(0), now, od);
    m' := m;
    if s.upload {
      KeeperReads(store, refusal, s.idx, s.sub, v.room);
      ServerOpensUpload(s, v, now, od);
      var reply := od.Read(s.idx, s.sub, v.room).1;
      if reply.ReadErr? {
        GivingUpIsAnAbort(s, v, step.server, reply.code);
        AbortsAreAborts(s, step.server.tx.value);
      } else {
        m' := 1;
      }
    } else {
      ServerOpensDownload(s, v, now, od);
      if step.aborted.Some? {
        GivingUpIsAnAbort(s, v, step.server, step.aborted.value);
        AbortsAreAborts(s, step.server.tx.value);
      } else {
        m' := 1;
      }
    }
  }

  /** A segment request out of turn, or with nothing open, is refused. */
  lemma ServerRefuses<S>(s: Session, v: Server, m: nat, r: nat, o: nat, now: nat, od: Dictionary<S>)
    requires s.Valid() && v.node == s.node && o >= 1
    requires || v.transfer == Idle
             || (m >= 1 && Parity(o - 1) != Parity(m - 1)
                 && if s.upload then m <= s.Last() && v.transfer == s.ServerAt(m) else Taking(s, v.transfer, m, r))
    ensures Refused(s, v, od, v.Handle(s.Req(o), now, od))
  {
    hide LastChunk, Chunk, Upto, Session.RequestBody, Session.Last, NodeOfRsdo, Specifier, Toggle, Expedited,
      SizeIndicated, ExpeditedLength, SegmentLength, FinalSegment, AbortBody;
    if s.upload {
      UploadRequestFields(s, o);
    } else {
      DownloadRequestFields(s, o);
    }
    AbortBodyFields(0, 0, InvalidCommandSpecifier);
    AbortBodyFields(s.idx, s.sub, ToggleBitNotAlternated);
  }

  lemma LastChunkLength(s: Session)
    requires !s.Short() && s.bytes != []
    ensures |Chunk(s.bytes, s.Last() - 1)| == |s.bytes| - 7 * (s.Last() - 1)
  {
    LastRequest(s, s.Last());
  }

  lemma AckBody(s: Session, j: nat)
    requires !s.upload && j >= 1
    ensures s.Resp(j) == SdoFrame(TsdoId(s.node), DownloadSegmentAckBody(Parity(j - 1)))
  {
  }

  /** A segment in turn but perhaps not the next one of the payload. The count can only have
      fallen behind, so the size check on the last segment finds every gap. */
  lemma ServerAccepts(s: Session, store0: Store, v: Server, store: Store, m: nat, r: nat, o: nat,
                      now: nat, refusal: Option<AbortCode>) returns (m': nat)
    requires s.Valid() && !s.upload && |s.bytes| < TWO32 && ServerIs(s, store0, v, store, m, r) && v.transfer != Idle
    requires r <= o <= s.Last() && 1 <= o && Parity(o - 1) == Parity(m - 1)
    ensures Outcome(s, store0, v, v.Handle(s.Req(o), now, Keeper(store, refusal)), m, m', o)
  {
    hide LastChunk, Chunk, Upto, Session.RequestBody, Session.ResponseBody, Session.Last, NodeOfRsdo, Specifier, Toggle,
      Expedited, SizeIndicated, ExpeditedLength, SegmentLength, FinalSegment, AbortBody, IsAbort;
    var od := Keeper(store, refusal);
    var t := v.transfer;
    var step := v.Handle(s.Req(o), now, od);
    DownloadRequestFields(s, o);
    LastRequest(s, o);
    ChunksConcatenate(s.bytes, o - 1);
    ServerAbortIsAnAbort(s, OutOfMemory);
    ServerAbortIsAnAbort(s, DataTypeLengthMismatch);
    AbortsAreAborts(s, SdoFrame(TsdoId(s.node), AbortBody(s.idx, s.sub, OutOfMemory)));
    AbortsAreAborts(s, SdoFrame(TsdoId(s.node), AbortBody(s.idx, s.sub, DataTypeLengthMismatch)));
    if refusal.Some? {
      ServerAbortIsAnAbort(s, refusal.value);
      AbortsAreAborts(s, SdoFrame(TsdoId(s.node), AbortBody(s.idx, s.sub, refusal.value)));
    }
    m' := if step.aborted.Some? then m else m + 1;
    AckBody(s, m);
    assert m <= o && (m == o ==> r == m - 1);
    if o == s.Last() {
      LastChunkLength(s);
    }
  }

  /** Requests of an upload past the first differ only in their toggle. */
  lemma SameToggleSameRequest(s: Session, i: nat, j: nat)
    requires s.Valid() && s.upload && i >= 1 && j >= 1 && Parity(i - 1) == Parity(j - 1)
    ensures s.Req(i) == s.Req(j)
  {
  }

  lemma ServerStep(s: Session, store0: Store, v: Server, store: Store, m: nat, r: nat, o: nat,
                   now: nat, refusal: Option<AbortCode>) returns (m': nat)
    requires s.Valid() && Reads(s, store0) && (!s.upload ==> |s.bytes| < TWO32 && o <= s.Last())
    requires ServerIs(s, store0, v, store, m, r) && r <= o
    ensures Outcome(s, store0, v, v.Handle(s.Req(o), now, Keeper(store, refusal)), m, m', o)
  {
    hide Server.Handle, Session.RequestBody, Session.ResponseBody, Session.Last, ResponseAbort, IsAbort, Upto;
    var od := Keeper(store, refusal);
    m' := m;
    if o == 0 {
      m' := ServerOpens(s, store0, v, store, m, now, refusal);
    } else if v.transfer == Idle || Parity(o - 1) != Parity(m - 1) {
      ServerRefuses(s, v, m, r, o, now, od);
      ConfigurationIsFixed(v, s.Req(o), now, od);
      KeeperReads(store, refusal, s.idx, s.sub, 0);
      AbortsAreAborts(s, v.Handle(s.Req(o), now, od).server.tx.value);
    } else if s.upload {
      SameToggleSameRequest(s, o, m);
      ServerServesSegment(s, v, m, now, od);
      KeeperReads(store, refusal, s.idx, s.sub, 0);
      m' := m + 1;
    } else {
      m' := ServerAccepts(s, store0, v, store, m, r, o, now, refusal);
    }
  }

  // ----- the invariant -----

  /** After any run: the client has heard line-up `qs`, requests up to `n` were queued, the
      server has handled those up to `r` and given `m` answers, and both directions hold
      only what is still to come of it. */
  ghost predicate OnCourse(s: Session, store0: Store, left: seq<SdoFrame>, g: nat, net: Net,
                         qs: seq<nat>, n: nat, m: nat, r: nat, os: seq<int>, at: seq<int>)
    requires s.Valid()
  {
    var line := Line(s, left, g);
    && g == Answers(s, store0, net.server.room) && Lineup(s, line, |left|, qs) && n <= |qs| && r <= n
    && (!s.upload ==> n <= s.Last()) && (qs != [] ==> Final(qs) < |left| + m)
    && ClientIs(s, line, net.client, net.verdict, qs, n)
    && Drawn(Pipe(net.up, net.client.tx), os, Requests(s, n), r, n + 1, RsdoId(s.node))
    && ServerIs(s, store0, net.server, net.store, m, r)
    && Drawn(Pipe(net.down, net.server.tx), at, line, Lowest(qs), |left| + m, TsdoId(s.node))
  }

  ghost predicate ClientIs(s: Session, line: seq<SdoFrame>, c: Client, verdict: Result, qs: seq<nat>, n: nat) {
    if c.exchange == Rest then verdict.Done? ==> verdict == Hear(s, line, qs).1
    else n == |qs| && verdict == Pending && Hear(s, line, qs) == (c.exchange, Pending)
  }

  lemma LineLength(s: Session, left: seq<SdoFrame>, g: nat)
    ensures |Line(s, left, g)| == |left| + g
    ensures forall i: nat :: i < |left| ==> Line(s, left, g)[i] == left[i]
    ensures forall j: nat :: j < g ==> Line(s, left, g)[|left| + j] == s.Resp(j)
  {
  }

  lemma RequestsLength(s: Session, n: nat)
    requires s.Valid()
    ensures |Requests(s, n)| == n + 1 && Requests(s, n) <= Requests(s, n + 1)
    ensures forall j: nat :: j <= n ==> Requests(s, n)[j] == s.Req(j)
  {
  }

  /** A request, or the client's abort, reaches the server. */
  lemma ServerSide(s: Session, store0: Store, left: seq<SdoFrame>, g: nat, net: Net, f: SdoFrame, o: int,
                   now: nat, refusal: Option<AbortCode>, lo: nat, m: nat, r: nat, at: seq<int>)
    returns (m': nat, at': seq<int>)
    requires s.Valid() && Reads(s, store0) && (!s.upload ==> |s.bytes| < TWO32 && o <= s.Last())
    requires g == Answers(s, store0, net.server.room) && ServerIs(s, store0, net.server, net.store, m, r)
    requires if o == -1 then IsAbort(RsdoId(s.node), f) else r <= o && f == s.Req(o)
    requires Drawn(Pipe(net.down, net.server.tx), at, Line(s, left, g), lo, |left| + m, TsdoId(s.node))
    requires lo <= |left| || lo < |left| + m
    ensures var step := net.server.Handle(f, now, Keeper(net.store, refusal));
            && m <= m' && step.server.room == net.server.room
            && ServerIs(s, store0, step.server, step.od.state, m', if o == -1 then r else o)
            && Drawn(Pipe(net.down, step.server.tx), at', Line(s, left, g), lo, |left| + m', TsdoId(s.node))
  {
    hide Server.Handle, Session.RequestBody, Session.ResponseBody, Session.Last, IsAbort, Drawn, Line, Answers, Keeper;
    var line, down, v := Line(s, left, g), Pipe(net.down, net.server.tx), net.server;
    var step := v.Handle(f, now, Keeper(net.store, refusal));
    LineLength(s, left, g);
    DrawnCut(down, at, line, lo, |left| + m, TsdoId(s.node), |net.down|);
    m', at' := m, at[..|net.down|];
    assert down[..|net.down|] == net.down;
    if o == -1 {
      AbortsAreAborts(s, f);
      ServerOnAbort(s, v, f, now, Keeper(net.store, refusal));
      KeeperReads(net.store, refusal, s.idx, s.sub, 0);
    } else {
      m' := ServerStep(s, store0, v, net.store, m, r, o, now, refusal);
      var answer := step.server.tx.value;
      var tag := if IsAbort(TsdoId(s.node), answer) then -1 else |left| + m' - 1;
      AnswerTag(s, store0, left, g, v, step, m, m', o, answer, lo);
      DrawnWiden(net.down, at', line, lo, |left| + m, TsdoId(s.node), line, |left| + m');
      DrawnPut(net.down, at', line, lo, |left| + m', TsdoId(s.node), answer, tag);
      at' := at' + [tag];
    }
  }

  lemma ToServerCourse(s: Session, store0: Store, left: seq<SdoFrame>, g: nat, net: Net, e: Event,
                       qs: seq<nat>, n: nat, m: nat, r: nat, os: seq<int>, at: seq<int>)
    returns (m': nat, r': nat, os': seq<int>, at': seq<int>)
    requires s.Valid() && Reads(s, store0) && (!s.upload ==> |s.bytes| < TWO32)
    requires OnCourse(s, store0, left, g, net, qs, n, m, r, os, at) && e.ToServer? && net.up != []
    ensures OnCourse(s, store0, left, g, Next(net, e), qs, n, m', r', os', at')
  {
    hide Server.Handle, Session.RequestBody, Session.ResponseBody, Session.Last, IsAbort, Drawn, Lineup, Hear, Take,
      ServerIs, Line, Requests, Answers, Keeper;
    var reqs, up := Requests(s, n), Pipe(net.up, net.client.tx);
    RequestsLength(s, n);
    HeadTag(up, os, reqs, r, n + 1, RsdoId(s.node));
    m', at' := ServerSide(s, store0, left, g, net, net.up[0], os[0], e.now, e.refusal, Lowest(qs), m, r, at);
    r' := if os[0] == -1 then r else os[0];
    DrawnFrom(up, os, reqs, r, n + 1, RsdoId(s.node), r');
    os' := if e.again then os else os[1..];
    assert Pipe(Deliver(net.up, e.again), net.client.tx) == if e.again then up else up[1..];
  }

  lemma HeadTag(q: seq<SdoFrame>, tags: seq<int>, from: seq<SdoFrame>, lo: nat, hi: nat, cobId: U16)
    requires Drawn(q, tags, from, lo, hi, cobId) && q != []
    ensures |tags| == |q| && Tagged(q[0], tags[0], from, lo, hi, cobId)
  {
  }

  lemma AnswerTag(s: Session, store0: Store, left: seq<SdoFrame>, g: nat, v: Server, step: Step<Store>,
                  m: nat, m': nat, r': nat, f: SdoFrame, lo: nat)
    requires s.Valid() && Outcome(s, store0, v, step, m, m', r') && g == Answers(s, store0, v.room)
    requires step.server.tx == Some(f)
    requires lo <= |left| || lo < |left| + m
    ensures m <= m' && |left| + m' <= |Line(s, left, g)|
    ensures Tagged(f, if IsAbort(TsdoId(s.node), f) then -1 else |left| + m' - 1, Line(s, left, g), lo, |left| + m',
      TsdoId(s.node))
  {
    LineLength(s, left, g);
  }

  /** The slot of the client changes behind what it has sent. */
  lemma SlotReplaced(s: Session, up: seq<SdoFrame>, tx: Option<SdoFrame>, tx': Option<SdoFrame>, os: seq<int>,
                     r: nat, n: nat, n': nat) returns (os': seq<int>)
    requires s.Valid() && Drawn(Pipe(up, tx), os, Requests(s, n), r, n + 1, RsdoId(s.node)) && r <= n
    requires n <= n' <= n + 1
    requires tx'.Some? ==> IsAbort(RsdoId(s.node), tx'.value) || tx'.value == s.Req(n')
    ensures Drawn(Pipe(up, tx'), os', Requests(s, n'), r, n' + 1, RsdoId(s.node))
  {
    hide Drawn, IsAbort, Session.RequestBody;
    RequestsLength(s, n);
    RequestsLength(s, n');
    DrawnCut(Pipe(up, tx), os, Requests(s, n), r, n + 1, RsdoId(s.node), |up|);
    os' := os[..|up|];
    assert Pipe(up, tx)[..|up|] == up;
    DrawnWiden(up, os', Requests(s, n), r, n + 1, RsdoId(s.node), Requests(s, n'), n' + 1);
    if tx'.Some? {
      var tag := if IsAbort(RsdoId(s.node), tx'.value) then -1 else n';
      DrawnPut(up, os', Requests(s, n'), r, n' + 1, RsdoId(s.node), tx'.value, tag);
      os' := os' + [tag];
    }
  }

  lemma AskedIsTheRequest(s: Session, x: Exchange, n: nat)
    requires s.Valid() && n >= 1 && x != Rest
    requires if s.upload then x.UploadSegments? && x.node == s.node && x.count == n - 1 else x == s.ClientAt(n)
    ensures Asked(x) == Some(s.Req(n))
  {
  }

  /** A frame reaches the client. */
  lemma ClientSide(s: Session, line: seq<SdoFrame>, base: nat, c: Client, up: seq<SdoFrame>, f: SdoFrame, a: int,
                   now: nat, qs: seq<nat>, n: nat, m: nat, r: nat, os: seq<int>)
    returns (qs': seq<nat>, n': nat, os': seq<int>)
    requires s.Valid() && Lineup(s, line, base, qs) && n == |qs| && r <= n && m <= r + 1
    requires (!s.upload ==> n <= s.Last())
    requires c.exchange != Rest && ClientIs(s, line, c, Pending, qs, n) && (qs != [] ==> Final(qs) < base + m)
    requires Drawn(Pipe(up, c.tx), os, Requests(s, n), r, n + 1, RsdoId(s.node))
    requires Tagged(f, a, line, Lowest(qs), base + m, TsdoId(s.node))
    ensures var (c', result) := c.Handle(f, now);
            && Lineup(s, line, base, qs') && n <= n' <= |qs'| && (!s.upload ==> n' <= s.Last())
            && (qs' == qs || (a >= 0 && qs' == qs + [a])) && ClientIs(s, line, c', result, qs', n')
            && Drawn(Pipe(up, c'.tx), os', Requests(s, n'), r, n' + 1, RsdoId(s.node))
  {
    hide Client.Handle, Take, Lineup, Hear, Drawn, IsAbort, Session.Last, Session.RequestBody,
      Requests, Asked, Upto;
    var (c', result) := c.Handle(f, now);
    qs', n', os' := qs, n, os;
    TakeIsHandle(c, f, now);
    if c'.exchange != c.exchange {
      if result.Failed? {
        if c'.tx.Some? {
          var code :| c' == c.AbortWith(code);
          LineupStage(s, line, base, qs);
          AbortOfTheSession(s, c, code);
        }
      } else {
        if a == -1 {
          AbortsAreAborts(s, f);
          ClientOnAbort(s, c, f, now);
        }
        LineupGrows(s, line, base, qs, a);
        HearOne(s, line, qs, a);
        qs' := qs + [a];
        LineupStage(s, line, base, qs');
        if c'.exchange != Rest {
          n' := n + 1;
          AskedIsTheRequest(s, c'.exchange, n');
        }
      }
      os' := SlotReplaced(s, up, c.tx, c'.tx, os, r, n, n');
    }
  }

  lemma AbortOfTheSession(s: Session, c: Client, code: AbortCode)
    requires c.exchange != Rest && (c.exchange.node, c.exchange.idx, c.exchange.sub) == (s.node, s.idx, s.sub)
    ensures var a := c.AbortWith(code);
            a.exchange == Rest && a.tx.Some? && IsAbort(RsdoId(s.node), a.tx.value)
  {
    AbortBodyFields(s.idx, s.sub, code);
  }

  lemma ToClientCourse(s: Session, store0: Store, left: seq<SdoFrame>, g: nat, net: Net, e: Event,
                       qs: seq<nat>, n: nat, m: nat, r: nat, os: seq<int>, at: seq<int>)
    returns (qs': seq<nat>, n': nat, os': seq<int>, at': seq<int>)
    requires s.Valid() && OnCourse(s, store0, left, g, net, qs, n, m, r, os, at) && e.ToClient? && net.down != []
    ensures OnCourse(s, store0, left, g, Next(net, e), qs', n', m, r, os', at')
  {
    hide Client.Handle, Session.RequestBody, Session.ResponseBody, Session.Last, IsAbort, Drawn, Lineup, Hear, Take,
      ServerIs, Line, Requests, Answers;
    var line, down := Line(s, left, g), Pipe(net.down, net.server.tx);
    HeadTag(down, at, line, Lowest(qs), |left| + m, TsdoId(s.node));
    qs', n', os' := qs, n, os;
    if net.client.exchange == Rest {
      ClientAtRest(net.client, net.down[0], e.now);
    } else {
      ServerBounds(s, store0, net.server, net.store, m, r);
      qs', n', os' := ClientSide(s, line, |left|, net.client, net.up, net.down[0], at[0], e.now, qs, n, m, r, os);
    }
    DrawnFrom(down, at, line, Lowest(qs), |left| + m, TsdoId(s.node), Lowest(qs'));
    at' := if e.again then at else at[1..];
    assert Pipe(Deliver(net.down, e.again), net.server.tx) == if e.again then down else down[1..];
  }

  lemma ServerBounds(s: Session, store0: Store, v: Server, store: Store, m: nat, r: nat)
    requires ServerIs(s, store0, v, store, m, r)
    ensures v.node == s.node && m <= r + 1 && m <= Answers(s, store0, v.room) && store == StoreAt(s, store0, m)
    ensures v.transfer != Idle ==> (v.transfer.idx, v.transfer.sub) == (s.idx, s.sub)
  {
  }

  /** Frames move into the bus or get lost. */
  lemma BusCourse(s: Session, store0: Store, left: seq<SdoFrame>, g: nat, net: Net, e: Event,
                  qs: seq<nat>, n: nat, m: nat, r: nat, os: seq<int>, at: seq<int>)
    returns (os': seq<int>, at': seq<int>)
    requires s.Valid() && OnCourse(s, store0, left, g, net, qs, n, m, r, os, at)
    requires e.ClientSends? || e.ServerSends? || e.LoseUp? || e.LoseDown?
    ensures OnCourse(s, store0, left, g, Next(net, e), qs, n, m, r, os', at')
  {
    hide Session.RequestBody, Session.ResponseBody, Session.Last, IsAbort, Drawn, Lineup, Hear, Take, ServerIs, Line,
      Requests, Answers;
    os', at' := os, at;
    var up, down := Pipe(net.up, net.client.tx), Pipe(net.down, net.server.tx);
    if e.LoseUp? && net.up != [] {
      DrawnFrom(up, os, Requests(s, n), r, n + 1, RsdoId(s.node), r);
      assert Pipe(net.up[1..], net.client.tx) == up[1..];
      os' := os[1..];
    } else if e.LoseDown? && net.down != [] {
      DrawnFrom(down, at, Line(s, left, g), Lowest(qs), |left| + m, TsdoId(s.node), Lowest(qs));
      assert Pipe(net.down[1..], net.server.tx) == down[1..];
      at' := at[1..];
    } else if e.ServerSends? && net.server.tx.Some? {
      SlotIsNoMatter(s, store0, net.server, net.server.(tx := None), net.store, m, r);
    }
  }

  lemma SlotIsNoMatter(s: Session, store0: Store, v: Server, v': Server, store: Store, m: nat, r: nat)
    requires ServerIs(s, store0, v, store, m, r) && v'.node == v.node && v'.room == v.room
    requires v'.transfer == v.transfer || v'.transfer == Idle
    ensures ServerIs(s, store0, v', store, m, r)
  {
  }

  /** Either side gives up. */
  lemma GivingUpCourse(s: Session, store0: Store, left: seq<SdoFrame>, g: nat, net: Net, e: Event,
                       qs: seq<nat>, n: nat, m: nat, r: nat, os: seq<int>, at: seq<int>)
    returns (os': seq<int>, at': seq<int>)
    requires s.Valid() && OnCourse(s, store0, left, g, net, qs, n, m, r, os, at)
    requires e.ClientTimeout? || e.ClientQuits? || e.ServerTimeout?
    ensures OnCourse(s, store0, left, g, Next(net, e), qs, n, m, r, os', at')
  {
    hide Session.RequestBody, Session.ResponseBody, Session.Last, IsAbort, Drawn, Lineup, Hear, Take, ServerIs, Line,
      Requests, Answers, Upto, AbortBody;
    os', at' := os, at;
    var c, v := net.client, net.server;
    if e.ServerTimeout? {
      var v' := v.HandleTimeout(e.now).0;
      ServerBounds(s, store0, v, net.store, m, r);
      SlotIsNoMatter(s, store0, v, v', net.store, m, r);
      if v.transfer != Idle && v'.transfer == Idle {
        ServerAbortIsAnAbort(s, ProtocolTimeout);
        AbortsAreAborts(s, v'.tx.value);
        at' := ServerSlotAborted(s, Line(s, left, g), net.down, v.tx, v'.tx.value, at, Lowest(qs), |left| + m);
      }
    } else if c.exchange != Rest {
      var code := if e.ClientQuits? then e.code else ProtocolTimeout;
      LineupStage(s, Line(s, left, g), |left|, qs);
      AbortOfTheSession(s, c, code);
      if Next(net, e).client != c {
        os' := SlotReplaced(s, net.up, c.tx, c.AbortWith(code).tx, os, r, n, n);
      }
    }
  }

  lemma ServerSlotAborted(s: Session, line: seq<SdoFrame>, down: seq<SdoFrame>, tx: Option<SdoFrame>, f: SdoFrame,
                          at: seq<int>, lo: nat, hi: nat) returns (at': seq<int>)
    requires Drawn(Pipe(down, tx), at, line, lo, hi, TsdoId(s.node)) && IsAbort(TsdoId(s.node), f)
    ensures Drawn(Pipe(down, Some(f)), at', line, lo, hi, TsdoId(s.node))
  {
    hide Drawn, IsAbort;
    DrawnCut(Pipe(down, tx), at, line, lo, hi, TsdoId(s.node), |down|);
    assert Pipe(down, tx)[..|down|] == down;
    DrawnPut(down, at[..|down|], line, lo, hi, TsdoId(s.node), f, -1);
    at' := at[..|down|] + [-1];
  }

  /** Every run from the start keeps its course. */
  lemma {:induction false} CourseHolds(s: Session, left: seq<SdoFrame>, g: nat, net: Net, events: seq<Event>,
                                       os0: seq<int>, at0: seq<int>)
    returns (qs: seq<nat>, n: nat, m: nat, r: nat, os: seq<int>, at: seq<int>)
    requires s.Valid() && Reads(s, net.store) && (!s.upload ==> |s.bytes| < TWO32)
    requires OnCourse(s, net.store, left, g, net, [], 0, 0, 0, os0, at0)
    ensures OnCourse(s, net.store, left, g, Play(net, events), qs, n, m, r, os, at)
    decreases |events|
  {
    hide Next, OnCourse;
    if events == [] {
      qs, n, m, r, os, at := [], 0, 0, 0, os0, at0;
    } else {
      var k := |events| - 1;
      qs, n, m, r, os, at := CourseHolds(s, left, g, net, events[..k], os0, at0);
      var before, e := Play(net, events[..k]), events[k];
      match e
      case ToServer(_, _, _) =>
        if before.up != [] {
          m, r, os, at := ToServerCourse(s, net.store, left, g, before, e, qs, n, m, r, os, at);
        } else {
          IdleEvent(before, e);
        }
      case ToClient(_, _) =>
        if before.down != [] {
          qs, n, os, at := ToClientCourse(s, net.store, left, g, before, e, qs, n, m, r, os, at);
        } else {
          IdleEvent(before, e);
        }
      case ClientTimeout(_) => os, at := GivingUpCourse(s, net.store, left, g, before, e, qs, n, m, r, os, at);
      case ServerTimeout(_) => os, at := GivingUpCourse(s, net.store, left, g, before, e, qs, n, m, r, os, at);
      case ClientQuits(_) => os, at := GivingUpCourse(s, net.store, left, g, before, e, qs, n, m, r, os, at);
      case _ => os, at := BusCourse(s, net.store, left, g, before, e, qs, n, m, r, os, at);
    }
  }
}
