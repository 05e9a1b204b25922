/** One transfer over a bad bus: each direction keeps its order, but any frame may be
    lost or delivered more than once, either machine may time out at any moment, and
    the dictionary may refuse any access. Whatever happens, a transfer that reports
    success has moved exactly the right bytes. */
module Channel {
  import opened Segments
  import opened Wire
  import opened ClientSpec
  import opened ServerSpec
  import opened Protocol

  type Key = (U16, Byte)
  type Store = map<Key, seq<Byte>>

  /** A dictionary that keeps whole values and may refuse: refused calls change nothing. */
  function Keeper(store: Store, refusal: Option<AbortCode>): Dictionary<Store> {
    Dictionary(
      store,
      (st: Store, idx: U16, sub: Byte, room: nat) =>
        (st, if refusal.Some? then ReadErr(refusal.value)
             else if (idx, sub) !in st then ReadErr(ObjectDoesNotExist)
             else if |st[(idx, sub)]| > room then ReadErr(OutOfMemory)
             else ReadOk(|st[(idx, sub)]|, i => At(st[(idx, sub)], i))),
      (st: Store, idx: U16, sub: Byte, data: seq<Byte>) =>
        if refusal.Some? then (st, refusal) else (st[(idx, sub) := data], None))
  }

  function At(v: seq<Byte>, i: nat): Byte { if i < |v| then v[i] else 0 }

  datatype Net = Net(
    client: Client, server: Server, up: seq<SdoFrame>, down: seq<SdoFrame>, store: Store, verdict: Result)

  datatype Event =
    | ClientSends
    | ServerSends
    | ToServer(again: bool, now: nat, refusal: Option<AbortCode>)
    | ToClient(again: bool, now: nat)
    | LoseUp
    | LoseDown
    | ClientTimeout(now: nat)
    | ServerTimeout(now: nat)
    | ClientQuits(code: AbortCode)

  function Deliver(q: seq<SdoFrame>, again: bool): seq<SdoFrame>
    requires q != []
  {
    if again then q else q[1..]
  }

  function Verdict(known: Result, r: Result): Result { if known == Pending then r else known }

  function Next(net: Net, e: Event): Net {
    match e
    case ClientSends =>
      if net.client.tx.None? then net
      else net.(client := net.client.(tx := None), up := net.up + [net.client.tx.value])
    case ServerSends =>
      if net.server.tx.None? then net
      else net.(server := net.server.(tx := None), down := net.down + [net.server.tx.value])
    case ToServer(again, now, refusal) =>
      if net.up == [] then net
      else
        var step := net.server.Handle(net.up[0], now, Keeper(net.store, refusal));
        net.(server := step.server, store := step.od.state, up := Deliver(net.up, again))
    case ToClient(again, now) =>
      if net.down == [] then net
      else
        var (c, r) := net.client.Handle(net.down[0], now);
        net.(client := c, verdict := Verdict(net.verdict, r), down := Deliver(net.down, again))
    case LoseUp => if net.up == [] then net else net.(up := net.up[1..])
    case LoseDown => if net.down == [] then net else net.(down := net.down[1..])
    case ClientTimeout(now) =>
      var (c, r) := net.client.HandleTimeout(now);
      net.(client := c, verdict := Verdict(net.verdict, r))
    case ServerTimeout(now) => net.(server := net.server.HandleTimeout(now).0)
    case ClientQuits(code) => net.(client := net.client.AbortWith(code))
  }

  function Play(net: Net, events: seq<Event>): Net {
    if events == [] then net else Next(Play(net, events[..|events| - 1]), events[|events| - 1])
  }

  // ----- what can be on the bus -----

  ghost predicate RequestAbort(s: Session, f: SdoFrame) {
    f.cobId == RsdoId(s.node) && Specifier(f.data[0]) == CS_ABORT
  }

  ghost predicate ResponseAbort(s: Session, f: SdoFrame) {
    f.cobId == TsdoId(s.node) && Specifier(f.data[0]) == CS_ABORT
  }

  /** The client waits for response `n`, the server has answered `m` requests. */
  ghost predicate InUp(s: Session, n: nat, m: nat, f: SdoFrame)
    requires s.Valid()
  {
    f == s.Req(n) || RequestAbort(s, f) || (n >= 1 && m == n && f == s.Req(n - 1))
  }

  ghost predicate InDown(s: Session, n: nat, m: nat, f: SdoFrame) {
    (m == n + 1 && f == s.Resp(n)) || ResponseAbort(s, f) || (n >= 1 && f == s.Resp(n - 1))
  }

  /** No older frame behind a newer one. */
  ghost predicate Ordered(q: seq<SdoFrame>, older: SdoFrame, newer: SdoFrame) {
    forall i, j :: 0 <= i < j < |q| && q[i] == newer ==> q[j] != older
  }

  ghost predicate UpOk(s: Session, n: nat, m: nat, up: seq<SdoFrame>, tx: Option<SdoFrame>)
    requires s.Valid()
  {
    && (forall f :: f in up ==> InUp(s, n, m, f))
    && (n >= 1 ==> Ordered(up, s.Req(n - 1), s.Req(n)))
    && (tx.Some? ==> tx.value == s.Req(n) || RequestAbort(s, tx.value))
  }

  ghost predicate DownOk(s: Session, n: nat, m: nat, down: seq<SdoFrame>, tx: Option<SdoFrame>) {
    && (forall f :: f in down ==> InDown(s, n, m, f))
    && (n >= 1 ==> Ordered(down, s.Resp(n - 1), s.Resp(n)))
    && (tx.Some? ==> InDown(s, n, m, tx.value) && (m == n + 1 ==> tx.value == s.Resp(n) || ResponseAbort(s, tx.value)))
  }

  function StoreAt(s: Session, store: Store, m: nat): Store {
    if !s.upload && m > s.Last() then store[(s.idx, s.sub) := s.bytes] else store
  }

  ghost predicate ServerOk(s: Session, store0: Store, v: Server, store: Store, m: nat) {
    && v.node == s.node && (m == 0 || v.transfer == Idle || v.transfer == s.ServerAt(m))
    && store == StoreAt(s, store0, m)
    && (s.upload && m >= 1 ==> (s.idx, s.sub) in store0)
  }

  ghost predicate ClientOk(s: Session, c: Client, verdict: Result, n: nat, m: nat) {
    if c.exchange == Rest then verdict.Done? ==> verdict == s.FinalResult() && m > s.Last()
    else c.exchange == s.ClientAt(n) && verdict == Pending
  }

  ghost predicate Inv(s: Session, store0: Store, net: Net, n: nat, m: nat)
    requires s.Valid()
  {
    && n <= s.Last() && n <= m <= n + 1
    && ClientOk(s, net.client, net.verdict, n, m)
    && ServerOk(s, store0, net.server, net.store, m)
    && UpOk(s, n, m, net.up, net.client.tx)
    && DownOk(s, n, m, net.down, net.server.tx)
  }

  /** The bytes an upload session moves are those the dictionary holds. */
  ghost predicate Reads(s: Session, store: Store) {
    s.upload ==> s.bytes == if (s.idx, s.sub) in store then store[(s.idx, s.sub)] else []
  }

  // ----- frames tell each other apart -----

  lemma RequestsDiffer(s: Session, j: nat)
    requires s.Valid()
    ensures s.Req(j) != s.Req(j + 1) && !RequestAbort(s, s.Req(j))
  {
    hide LastChunk, Chunk, Upto, Session.RequestBody, Session.ResponseBody, Session.Last, Specifier, Toggle,
      SegmentLength, FinalSegment;
    if s.upload {
      UploadRequestFields(s, j);
      UploadRequestFields(s, j + 1);
    } else {
      DownloadRequestFields(s, j);
      DownloadRequestFields(s, j + 1);
    }
  }

  lemma ResponsesDiffer(s: Session, j: nat)
    requires s.Valid()
    ensures s.Resp(j) != s.Resp(j + 1) && !ResponseAbort(s, s.Resp(j))
  {
    hide LastChunk, Chunk, Upto, Session.RequestBody, Session.ResponseBody, Session.Last, Specifier, Toggle,
      SegmentLength, FinalSegment;
    if s.upload {
      UploadResponseFields(s, j);
      UploadResponseFields(s, j + 1);
    } else {
      DownloadResponseFields(s, j);
      DownloadResponseFields(s, j + 1);
    }
  }

  // ----- frames that arrive late -----

  ghost predicate Refused<S>(s: Session, v: Server, od: Dictionary<S>, step: Step<S>) {
    && step.server.node == v.node && step.server.transfer == Idle && step.od == od
    && step.server.tx.Some? && ResponseAbort(s, step.server.tx.value)
  }

  /** A segment request the server has already answered, or one that finds no transfer
      open, is refused and changes nothing in the dictionary. */
  lemma ServerOnLateSegment<S>(s: Session, v: Server, j: nat, now: nat, od: Dictionary<S>)
    requires s.Valid() && v.node == s.node && j >= 1
    requires v.transfer == Idle || v.transfer == s.ServerAt(j + 1)
    ensures Refused(s, v, od, v.Handle(s.Req(j), now, od))
  {
    hide LastChunk, Chunk, Upto, Session.RequestBody, Session.Last, NodeOfRsdo, Specifier, Toggle, Expedited,
      SizeIndicated, ExpeditedLength, SegmentLength, FinalSegment, AbortBody;
    if s.upload {
      UploadRequestFields(s, j);
    } else {
      DownloadRequestFields(s, j);
    }
    AbortBodyFields(0, 0, InvalidCommandSpecifier);
    AbortBodyFields(s.idx, s.sub, ToggleBitNotAlternated);
  }

  lemma ServerOnAbort<S>(s: Session, v: Server, f: SdoFrame, now: nat, od: Dictionary<S>)
    requires s.Valid() && v.node == s.node && RequestAbort(s, f)
    ensures v.Handle(f, now, od) == Step(v.Reset(), od, None)
  {
    IdentifiersNameTheNode(s.node);
  }

  /** A response the client has already taken is ignored or ends the transfer with an error. */
  lemma ClientOnLateResponse(s: Session, c: Client, n: nat, now: nat)
    requires s.Valid() && 1 <= n && c.exchange == s.ClientAt(n)
    ensures var (c', r) := c.Handle(s.Resp(n - 1), now);
            || (c' == c && r == Pending)
            || (c' == c.AbortWith(ToggleBitNotAlternated) && r == Failed(ClientAborted(ToggleBitNotAlternated)))
  {
    hide LastChunk, Chunk, Upto, Session.ResponseBody, NodeOfTsdo, Specifier, Toggle, Expedited,
      SizeIndicated, ExpeditedLength, SegmentLength, FinalSegment, AbortBody;
    if s.upload {
      UploadResponseFields(s, n - 1);
    } else {
      DownloadResponseFields(s, n - 1);
    }
  }

  lemma ClientOnAbort(s: Session, c: Client, f: SdoFrame, now: nat)
    requires s.Valid() && ResponseAbort(s, f)
    ensures var (c', r) := c.Handle(f, now);
            (c' == c && r == Pending) || (c' == c.Clear() && r.Failed?)
  {
    IdentifiersNameTheNode(s.node);
  }

  lemma ClientAtRest(c: Client, f: SdoFrame, now: nat)
    requires c.exchange == Rest
    ensures c.Handle(f, now) == (c, Pending)
  {
  }

  lemma ClientAbortIsAnAbort(s: Session, c: Client, n: nat, code: AbortCode)
    requires s.Valid() && c.exchange == s.ClientAt(n)
    ensures var a := c.AbortWith(code);
            && a.exchange == Rest && a.tx == Some(SdoFrame(RsdoId(s.node), AbortBody(s.idx, s.sub, code)))
            && RequestAbort(s, a.tx.value)
  {
    AbortBodyFields(s.idx, s.sub, code);
  }

  // ----- every event keeps the invariant -----

  ghost predicate StepOk(s: Session, store0: Store, step: Step<Store>, j: nat, m: nat, m': nat) {
    && ServerOk(s, store0, step.server, step.od.state, m') && step.server.tx.Some?
    && ((m' == m && ResponseAbort(s, step.server.tx.value)) || (m' == j + 1 && step.server.tx.value == s.Resp(j)))
  }

  lemma KeeperReads(store: Store, refusal: Option<AbortCode>, idx: U16, sub: Byte, room: nat)
    ensures var od := Keeper(store, refusal);
            var (od', reply) := od.Read(idx, sub, room);
            && od.state == store && od' == od
            && (reply.ReadOk? ==> && reply.len <= room && (idx, sub) in store
                                  && Fill(reply.len, reply.bytes) == store[(idx, sub)])
  {
    var reply := Keeper(store, refusal).Read(idx, sub, room).1;
    if reply.ReadOk? {
      var kept := store[(idx, sub)];
      assert forall i :: 0 <= i < |kept| ==> reply.bytes(i) == At(kept, i);
    }
  }

  lemma GivingUpIsAnAbort(s: Session, v: Server, v': Server, code: AbortCode)
    requires s.Valid() && GaveUp(s, v, v', code)
    ensures v'.tx.Some? && ResponseAbort(s, v'.tx.value)
  {
    AbortBodyFields(s.idx, s.sub, code);
  }

  lemma ServerOnInit(s: Session, store0: Store, v: Server, store: Store, m: nat, now: nat, refusal: Option<AbortCode>)
    returns (m': nat)
    requires s.Valid() && Reads(s, store0) && m <= 1 && ServerOk(s, store0, v, store, m)
    ensures m' == m || m' == 1
    ensures StepOk(s, store0, v.Handle(s.Req(0), now, Keeper(store, refusal)), 0, m, m')
  {
    hide Server.Handle, Session.RequestBody, Session.ResponseBody, Session.Last, ResponseAbort;
    var od := Keeper(store, refusal);
    var step := v.Handle(s.Req(0), now, od);
    LastRequest(s, 0);
    m' := m;
    if s.upload {
      KeeperReads(store, refusal, s.idx, s.sub, v.room);
      ServerOpensUpload(s, v, now, od);
      var reply := od.Read(s.idx, s.sub, v.room).1;
      if reply.ReadErr? {
        GivingUpIsAnAbort(s, v, step.server, reply.code);
      } else {
        m' := 1;
      }
    } else {
      ServerOpensDownload(s, v, now, od);
      if step.aborted.Some? {
        GivingUpIsAnAbort(s, v, step.server, step.aborted.value);
      } else {
        m' := 1;
      }
    }
  }

  lemma ServerOnSegment(s: Session, store0: Store, v: Server, store: Store, j: nat, m: nat, now: nat,
                        refusal: Option<AbortCode>)
    returns (m': nat)
    requires s.Valid() && 1 <= j <= s.Last() && (m == j || m == j + 1) && ServerOk(s, store0, v, store, m)
    ensures m' == m || m' == j + 1
    ensures StepOk(s, store0, v.Handle(s.Req(j), now, Keeper(store, refusal)), j, m, m')
  {
    hide Server.Handle, Session.RequestBody, Session.ResponseBody, Session.Last, ResponseAbort, Upto;
    var od := Keeper(store, refusal);
    var step := v.Handle(s.Req(j), now, od);
    m' := m;
    if m == j + 1 || v.transfer == Idle {
      ServerOnLateSegment(s, v, j, now, od);
    } else if s.upload {
      ServerServesSegment(s, v, j, now, od);
      m' := j + 1;
    } else {
      ServerTakesSegment(s, v, j, now, od);
      if step.aborted.Some? {
        GivingUpIsAnAbort(s, v, step.server, step.aborted.value);
      } else {
        m' := j + 1;
      }
    }
  }

  lemma TailKeeps(q: seq<SdoFrame>, again: bool)
    requires q != []
    ensures forall f :: f in Deliver(q, again) ==> f in q
    ensures forall a, b :: Ordered(q, a, b) ==> Ordered(Deliver(q, again), a, b)
  {
  }

  lemma UpAfterDelivery(s: Session, n: nat, m: nat, m': nat, up: seq<SdoFrame>, tx: Option<SdoFrame>, again: bool)
    requires s.Valid() && up != [] && UpOk(s, n, m, up, tx)
    requires m' == m || (m' == n + 1 && up[0] == s.Req(n))
    ensures UpOk(s, n, m', Deliver(up, again), tx)
  {
    hide Session.RequestBody, RequestAbort;
    TailKeeps(up, again);
    if n >= 1 && m' != m {
      RequestsDiffer(s, n - 1);
      assert forall f :: f in up ==> f != s.Req(n - 1);
    }
  }

  lemma UpAfterAdvance(s: Session, n: nat, up: seq<SdoFrame>, tx: Option<SdoFrame>)
    requires s.Valid() && UpOk(s, n, n + 1, up, tx)
    ensures UpOk(s, n + 1, n + 1, up, Some(s.Req(n + 1)))
  {
    hide Session.RequestBody, RequestAbort;
    RequestsDiffer(s, n);
    RequestsDiffer(s, n + 1);
    forall f | f in up
      ensures InUp(s, n + 1, n + 1, f) && f != s.Req(n + 1)
    {
      assert InUp(s, n, n + 1, f);
    }
    assert forall i :: 0 <= i < |up| ==> up[i] in up;
    assert Ordered(up, s.Req(n), s.Req(n + 1));
  }

  lemma DownAfterAnswer(s: Session, n: nat, m: nat, m': nat, down: seq<SdoFrame>, tx: Option<SdoFrame>,
                        tx': Option<SdoFrame>)
    requires s.Valid() && DownOk(s, n, m, down, tx) && n <= m <= n + 1 && (m' == m || m' == n + 1)
    requires tx'.Some? ==> || ResponseAbort(s, tx'.value) || (m' == n + 1 && tx'.value == s.Resp(n))
                           || (n >= 1 && m' == n && tx'.value == s.Resp(n - 1))
    ensures DownOk(s, n, m', down, tx')
  {
    hide Session.ResponseBody, ResponseAbort;
  }

  lemma DownAfterAdvance(s: Session, n: nat, down: seq<SdoFrame>, tx: Option<SdoFrame>, again: bool)
    requires s.Valid() && DownOk(s, n, n + 1, down, tx) && down != [] && down[0] == s.Resp(n)
    ensures DownOk(s, n + 1, n + 1, Deliver(down, again), tx)
  {
    hide Session.ResponseBody, ResponseAbort;
    TailKeeps(down, again);
    ResponsesDiffer(s, n);
    ResponsesDiffer(s, n + 1);
    if n >= 1 {
      ResponsesDiffer(s, n - 1);
      assert forall f :: f in down ==> f != s.Resp(n - 1);
    }
    forall f | f in down
      ensures InDown(s, n + 1, n + 1, f) && f != s.Resp(n + 1)
    {
      assert InDown(s, n, n + 1, f);
    }
    assert forall i :: 0 <= i < |down| ==> down[i] in down;
    assert Ordered(Deliver(down, again), s.Resp(n), s.Resp(n + 1));
  }

  lemma DownAfterDelivery(s: Session, n: nat, m: nat, down: seq<SdoFrame>, tx: Option<SdoFrame>, again: bool)
    requires s.Valid() && DownOk(s, n, m, down, tx) && down != []
    ensures DownOk(s, n, m, Deliver(down, again), tx)
  {
    TailKeeps(down, again);
  }

  lemma ToServerKeeps(s: Session, store0: Store, net: Net, n: nat, m: nat, e: Event) returns (m': nat)
    requires s.Valid() && Reads(s, store0) && Inv(s, store0, net, n, m) && e.ToServer? && net.up != []
    ensures Inv(s, store0, Next(net, e), n, m')
  {
    hide Server.Handle, Client.Handle, Session.RequestBody, Session.ResponseBody, Session.Last,
      ResponseAbort, RequestAbort, Keeper, Session.ServerAt, Session.ClientAt, UpOk, DownOk, Deliver;
    var f := net.up[0];
    HeadInUp(s, n, m, net.up, net.client.tx);
    var step := net.server.Handle(f, e.now, Keeper(net.store, e.refusal));
    m' := m;
    if RequestAbort(s, f) {
      ServerOnAbort(s, net.server, f, e.now, Keeper(net.store, e.refusal));
      KeeperReads(net.store, e.refusal, s.idx, s.sub, 0);
    } else {
      var j := if f == s.Req(n) then n else n - 1;
      if j == 0 {
        m' := ServerOnInit(s, store0, net.server, net.store, m, e.now, e.refusal);
      } else {
        m' := ServerOnSegment(s, store0, net.server, net.store, j, m, e.now, e.refusal);
      }
    }
    UpAfterDelivery(s, n, m, m', net.up, net.client.tx, e.again);
    DownAfterAnswer(s, n, m, m', net.down, net.server.tx, step.server.tx);
  }

  lemma HeadInUp(s: Session, n: nat, m: nat, up: seq<SdoFrame>, tx: Option<SdoFrame>)
    requires s.Valid() && up != [] && UpOk(s, n, m, up, tx)
    ensures InUp(s, n, m, up[0])
  {
    assert up[0] in up;
  }

  lemma HeadInDown(s: Session, n: nat, m: nat, down: seq<SdoFrame>, tx: Option<SdoFrame>)
    requires s.Valid() && down != [] && DownOk(s, n, m, down, tx)
    ensures InDown(s, n, m, down[0])
  {
    assert down[0] in down;
  }

  lemma QuietUp(s: Session, n: nat, m: nat, up: seq<SdoFrame>, tx: Option<SdoFrame>, tx': Option<SdoFrame>)
    requires s.Valid() && UpOk(s, n, m, up, tx) && (tx'.Some? ==> RequestAbort(s, tx'.value))
    ensures UpOk(s, n, m, up, tx')
  {
  }

  lemma ToClientKeeps(s: Session, store0: Store, net: Net, n: nat, m: nat, e: Event) returns (n': nat)
    requires s.Valid() && Inv(s, store0, net, n, m) && e.ToClient? && net.down != []
    ensures Inv(s, store0, Next(net, e), n', m)
  {
    hide Server.Handle, Client.Handle, Session.RequestBody, Session.ResponseBody, Session.Last,
      ResponseAbort, RequestAbort, Session.ServerAt, Session.ClientAt, UpOk, DownOk, Deliver;
    var f := net.down[0];
    var c := net.client;
    HeadInDown(s, n, m, net.down, net.server.tx);
    n' := n;
    if c.exchange != Rest && m == n + 1 && f == s.Resp(n) && n < s.Last() {
      ClientAdvances(s, c, n, e.now);
      UpAfterAdvance(s, n, net.up, c.tx);
      DownAfterAdvance(s, n, net.down, net.server.tx, e.again);
      n' := n + 1;
      return;
    }
    DownAfterDelivery(s, n, m, net.down, net.server.tx, e.again);
    if c.exchange == Rest {
      ClientAtRest(c, f, e.now);
    } else {
      ClientEnds(s, c, n, m, f, e.now);
      var (c', _) := c.Handle(f, e.now);
      if c' != c {
        QuietUp(s, n, m, net.up, c.tx, c'.tx);
      }
    }
  }

  /** Any frame but the response the client waits for is ignored or ends the transfer;
      success needs the final response. */
  lemma ClientEnds(s: Session, c: Client, n: nat, m: nat, f: SdoFrame, now: nat)
    requires s.Valid() && n <= s.Last() && c.exchange == s.ClientAt(n) && InDown(s, n, m, f)
    requires m == n + 1 && f == s.Resp(n) ==> n == s.Last()
    ensures var (c', r) := c.Handle(f, now);
            || (c' == c && r == Pending)
            || (&& c'.exchange == Rest && r != Pending && (c'.tx.Some? ==> RequestAbort(s, c'.tx.value))
                && (r.Done? ==> r == s.FinalResult() && m > s.Last()))
  {
    hide Client.Handle, Session.RequestBody, Session.ResponseBody, Session.Last,
      ResponseAbort, RequestAbort, Session.ServerAt, Session.ClientAt;
    if ResponseAbort(s, f) {
      ClientOnAbort(s, c, f, now);
    } else if m == n + 1 && f == s.Resp(n) {
      ClientAdvances(s, c, n, now);
      ClientAbortIsAnAbort(s, c, n, DataTypeLengthMismatch);
    } else {
      ClientOnLateResponse(s, c, n, now);
      ClientAbortIsAnAbort(s, c, n, ToggleBitNotAlternated);
    }
  }

  lemma UpAfterSend(s: Session, n: nat, m: nat, up: seq<SdoFrame>, f: SdoFrame)
    requires s.Valid() && UpOk(s, n, m, up, Some(f))
    ensures UpOk(s, n, m, up + [f], None)
  {
    hide Session.RequestBody, RequestAbort;
    if n >= 1 {
      RequestsDiffer(s, n - 1);
    }
  }

  lemma DownAfterSend(s: Session, n: nat, m: nat, down: seq<SdoFrame>, f: SdoFrame)
    requires s.Valid() && n <= m <= n + 1 && DownOk(s, n, m, down, Some(f))
    ensures DownOk(s, n, m, down + [f], None)
  {
    hide Session.ResponseBody, ResponseAbort;
    ResponsesDiffer(s, n);
    if n >= 1 {
      ResponsesDiffer(s, n - 1);
      if f == s.Resp(n - 1) {
        assert forall g :: g in down ==> InDown(s, n, m, g) && g != s.Resp(n);
        assert forall i :: 0 <= i < |down| ==> down[i] in down;
      }
    }
  }

  lemma SendingKeeps(s: Session, store0: Store, net: Net, n: nat, m: nat, e: Event)
    requires s.Valid() && Inv(s, store0, net, n, m) && (e.ClientSends? || e.ServerSends? || e.LoseUp? || e.LoseDown?)
    ensures Inv(s, store0, Next(net, e), n, m)
  {
    hide Session.RequestBody, Session.ResponseBody, Session.Last, ResponseAbort, RequestAbort,
      Session.ServerAt, Session.ClientAt, UpOk, DownOk;
    if e.ClientSends? && net.client.tx.Some? {
      UpAfterSend(s, n, m, net.up, net.client.tx.value);
    } else if e.ServerSends? && net.server.tx.Some? {
      DownAfterSend(s, n, m, net.down, net.server.tx.value);
    } else if e.LoseUp? && net.up != [] {
      UpAfterDelivery(s, n, m, m, net.up, net.client.tx, false);
    } else if e.LoseDown? && net.down != [] {
      DownAfterDelivery(s, n, m, net.down, net.server.tx, false);
    }
  }

  lemma ClientGivingUpKeeps(s: Session, store0: Store, net: Net, n: nat, m: nat, e: Event)
    requires s.Valid() && Inv(s, store0, net, n, m) && (e.ClientTimeout? || e.ClientQuits?)
    ensures Inv(s, store0, Next(net, e), n, m)
  {
    hide Session.RequestBody, Session.ResponseBody, Session.Last, ResponseAbort, RequestAbort, UpOk, DownOk,
      Session.ClientAt;
    var c := net.client;
    if c.exchange != Rest {
      var code := if e.ClientQuits? then e.code else ProtocolTimeout;
      ClientAbortIsAnAbort(s, c, n, code);
      QuietUp(s, n, m, net.up, c.tx, c.AbortWith(code).tx);
    }
  }

  lemma ServerGivingUpKeeps(s: Session, store0: Store, net: Net, n: nat, m: nat, e: Event)
    requires s.Valid() && Inv(s, store0, net, n, m) && e.ServerTimeout?
    ensures Inv(s, store0, Next(net, e), n, m)
  {
    hide Session.RequestBody, Session.ResponseBody, Session.Last, ResponseAbort, RequestAbort, UpOk, DownOk,
      Session.ClientAt;
    var v := net.server.HandleTimeout(e.now).0;
    if v.tx != net.server.tx {
      AnyAbortIsAnAbort(s, net.server.transfer.idx, net.server.transfer.sub, ProtocolTimeout);
      DownAfterAnswer(s, n, m, m, net.down, net.server.tx, v.tx);
    }
  }

  lemma AnyAbortIsAnAbort(s: Session, idx: U16, sub: Byte, code: AbortCode)
    ensures ResponseAbort(s, SdoFrame(TsdoId(s.node), AbortBody(idx, sub, code)))
  {
    AbortBodyFields(idx, sub, code);
  }

  lemma ServerAbortIsAnAbort(s: Session, code: AbortCode)
    ensures ResponseAbort(s, SdoFrame(TsdoId(s.node), AbortBody(s.idx, s.sub, code)))
  {
    AbortBodyFields(s.idx, s.sub, code);
  }

  lemma {:induction false} InvHolds(s: Session, net: Net, events: seq<Event>) returns (n: nat, m: nat)
    requires s.Valid() && Reads(s, net.store) && Inv(s, net.store, net, 0, 0)
    ensures Inv(s, net.store, Play(net, events), n, m)
    decreases |events|
  {
    hide Next, Inv;
    if events == [] {
      n, m := 0, 0;
    } else {
      var k := |events| - 1;
      n, m := InvHolds(s, net, events[..k]);
      var before, e := Play(net, events[..k]), events[k];
      match e
      case ToServer(_, _, _) =>
        if before.up != [] {
          m := ToServerKeeps(s, net.store, before, n, m, e);
        } else {
          IdleEvent(before, e);
        }
      case ToClient(_, _) =>
        if before.down != [] {
          n := ToClientKeeps(s, net.store, before, n, m, e);
        } else {
          IdleEvent(before, e);
        }
      case ServerTimeout(_) => ServerGivingUpKeeps(s, net.store, before, n, m, e);
      case ClientTimeout(_) => ClientGivingUpKeeps(s, net.store, before, n, m, e);
      case ClientQuits(_) => ClientGivingUpKeeps(s, net.store, before, n, m, e);
      case _ => SendingKeeps(s, net.store, before, n, m, e);
    }
  }

  lemma IdleEvent(net: Net, e: Event)
    requires (e.ToServer? && net.up == []) || (e.ToClient? && net.down == [])
    ensures Next(net, e) == net
  {
  }

  // ----- the theorems -----

  /** A client at rest and an empty bus. The server may still hold an abandoned transfer. */
  ghost predicate Fresh(net: Net, node: Byte) {
    && ValidNode(node) && net.client.exchange == Rest && net.verdict == Pending
    && net.server.node == node && net.server.tx == None
    && net.up == [] && net.down == []
  }

  /** An upload that completes over any bad bus delivers exactly the stored value, and
      nothing that happens during it changes the dictionary. */
  lemma UploadIsSafe(net: Net, node: Byte, idx: U16, sub: Byte, now: nat, events: seq<Event>)
    requires Fresh(net, node)
    ensures var end := Play(net.(client := net.client.BeginUpload(node, idx, sub, now).0), events);
            && end.store == net.store
            && (end.verdict.Done? ==> (idx, sub) in net.store
                                      && end.verdict == Done(UploadCompleted(net.store[(idx, sub)])))
  {
    var value := if (idx, sub) in net.store then net.store[(idx, sub)] else [];
    var s := Session(node, idx, sub, true, value);
    var start := net.(client := net.client.BeginUpload(node, idx, sub, now).0);
    assert Inv(s, start.store, start, 0, 0);
    var n, m := InvHolds(s, start, events);
  }

  /** In every state of a download the dictionary holds the old value or the whole
      payload, and it holds the payload from the moment success is reported. */
  lemma DownloadIsSafe(net: Net, node: Byte, idx: U16, sub: Byte, data: seq<Byte>, now: nat, events: seq<Event>)
    requires Fresh(net, node) && data != []
    ensures var end := Play(net.(client := net.client.BeginDownload(node, idx, sub, data, now).0), events);
            && (end.store == net.store || end.store == net.store[(idx, sub) := data])
            && (end.verdict.Done? ==>
              end.verdict.outcome.DownloadCompleted? && end.store == net.store[(idx, sub) := data])
  {
    var s := Session(node, idx, sub, false, data);
    var start := net.(client := net.client.BeginDownload(node, idx, sub, data, now).0);
    assert Inv(s, start.store, start, 0, 0);
    var n, m := InvHolds(s, start, events);
  }

  /** Why the bus must start empty: an acknowledgement left over from an earlier short write
      to the same object completes a new one that the server never saw. */
  lemma StaleAcknowledgementIsBelieved(net: Net, node: Byte, idx: U16, sub: Byte, data: seq<Byte>, now: nat)
    requires Fresh(net.(down := []), node) && 1 <= |data| <= 4
    requires net.down == [SdoFrame(TsdoId(node), InitDownloadAckBody(idx, sub))]
    ensures var start := net.(client := net.client.BeginDownload(node, idx, sub, data, now).0);
            var end := Play(start, [ToClient(false, now)]);
            end.verdict == Done(DownloadCompleted) && end.store == net.store
  {
    var s := Session(node, idx, sub, false, data);
    var start := net.(client := net.client.BeginDownload(node, idx, sub, data, now).0);
    LastRequest(s, 0);
    ClientAdvances(s, start.client, 0, now);
    assert Play(start, []) == start;
  }

  /** And a value left over from an earlier short read of the object is reported as the value
      of a new one, whatever is stored. */
  lemma StaleValueIsBelieved(net: Net, node: Byte, idx: U16, sub: Byte, value: seq<Byte>, now: nat)
    requires Fresh(net.(down := []), node) && 1 <= |value| <= 4
    requires net.down == [SdoFrame(TsdoId(node), InitUploadBody(idx, sub, value))]
    ensures var end := Play(net.(client := net.client.BeginUpload(node, idx, sub, now).0), [ToClient(false, now)]);
            end.verdict == Done(UploadCompleted(value)) && end.store == net.store
  {
    var s := Session(node, idx, sub, true, value);
    var start := net.(client := net.client.BeginUpload(node, idx, sub, now).0);
    LastRequest(s, 0);
    ClientAdvances(s, start.client, 0, now);
    assert Play(start, []) == start;
  }
}
