/** Client and server wired back to back, as in the loopback tests: every transfer
    ends after a known number of exchanges with the result, and the dictionary, of
    calling `read` or `write` directly. */
module Loopback {
  import opened Segments
  import opened Wire
  import opened ClientSpec
  import opened ServerSpec
  import opened Protocol

  datatype Pair = Pair(client: Client, server: Server)

  datatype Run<!S> = Run(pair: Pair, od: Dictionary<S>, result: Result)

  /** One request out and its response back. */
  function Exchange<S>(p: Pair, od: Dictionary<S>, now: nat): Run<S>
    requires p.client.tx.Some?
  {
    var step := p.server.Handle(p.client.tx.value, now, od);
    var c := p.client.(tx := None);
    match step.server.tx
    case None => Run(Pair(c, step.server), step.od, Pending)
    case Some(f) =>
      var (c', r) := c.Handle(f, now);
      Run(Pair(c', step.server.(tx := None)), step.od, r)
  }

  /** What the application does to the dictionary's state after each exchange. */
  type Application<!S> = (nat, S) -> S

  function Untouched<S>(): Application<S> { (_, s) => s }

  function Touch<S>(od: Dictionary<S>, app: Application<S>, k: nat): Dictionary<S> {
    od.(state := app(k, od.state))
  }

  /** `n` exchanges at arbitrary times, stopping when the client has a result. */
  function After<S>(p: Pair, od: Dictionary<S>, app: Application<S>, clock: nat -> nat, n: nat): Run<S> {
    if n == 0 then Run(p, od, Pending)
    else
      var e := After(p, od, app, clock, n - 1);
      if e.result != Pending || e.pair.client.tx.None? then e
      else
        var x := Exchange(e.pair, e.od, clock(n - 1));
        x.(od := Touch(x.od, app, n - 1))
  }

  /** A dictionary the application alone has changed, `k` times. */
  function Drift<S>(od: Dictionary<S>, app: Application<S>, k: nat): Dictionary<S> {
    if k == 0 then od else Touch(Drift(od, app, k - 1), app, k - 1)
  }

  lemma UntouchedDoesNotDrift<S>(od: Dictionary<S>, k: nat)
    ensures Drift(od, Untouched(), k) == od
  {
    if k > 0 {
      UntouchedDoesNotDrift(od, k - 1);
    }
  }

  // ----- operations -----

  datatype Op = Get(idx: U16, sub: Byte) | Put(idx: U16, sub: Byte, data: seq<Byte>)

  function Begin(p: Pair, node: Byte, op: Op, now: nat): (Pair, Option<Error>) {
    match op
    case Get(idx, sub) =>
      var (c, e) := p.client.BeginUpload(node, idx, sub, now);
      (p.(client := c), e)
    case Put(idx, sub, data) =>
      var (c, e) := p.client.BeginDownload(node, idx, sub, data, now);
      (p.(client := c), e)
  }

  /** The dictionary call an operation stands for, and what its caller sees. */
  function Direct<S>(od: Dictionary<S>, op: Op, room: nat): (Dictionary<S>, Result) {
    match op
    case Get(idx, sub) =>
      var (od', reply) := od.Read(idx, sub, room);
      (od', match reply
            case ReadErr(code) => Failed(ServerAborted(FromRaw(Raw(code))))
            case ReadOk(len, bytes) =>
              if len > room then Failed(ServerAborted(OutOfMemory))
              else if len >= TWO32 then Failed(ClientAborted(DataTypeLengthMismatch))
              else Done(UploadCompleted(Fill(len, bytes))))
    case Put(idx, sub, data) =>
      if data == [] then (od, Failed(InvalidArgument))
      else if |data| > 4 && (|data| > room || |data| % TWO32 > room) then (od, Failed(ServerAborted(OutOfMemory)))
      else if |data| >= TWO32 then (od, Failed(ServerAborted(DataTypeLengthMismatch)))
      else
        var (od', refused) := od.Write(idx, sub, data);
        (od', if refused.Some? then Failed(ServerAborted(FromRaw(Raw(refused.value)))) else Done(DownloadCompleted))
  }

  /** Exchanges needed to move `len` bytes. */
  function Exchanges(len: nat): nat {
    if 1 <= len <= 4 then 1 else 1 + if len == 0 then 1 else (len + 6) / 7
  }

  /** How many exchanges an operation takes. */
  function Cost<S>(od: Dictionary<S>, op: Op, room: nat): nat {
    match op
    case Get(idx, sub) =>
      var (_, reply) := od.Read(idx, sub, room);
      if reply.ReadErr? || reply.len > room then 1 else Exchanges(reply.len)
    case Put(_, _, data) =>
      if data == [] then 0
      else if |data| > 4 && |data| % TWO32 > room then 1
      else if |data| > 4 && |data| > room then room / 7 + 2
      else Exchanges(|data|)
  }

  ghost predicate Quiescent(p: Pair, node: Byte) {
    && ValidNode(node) && p.client.exchange == Rest
    && p.server.node == node && p.server.transfer == Idle && p.server.tx == None
  }

  // ----- progress of one session -----

  ghost predicate Underway<S>(s: Session, e: Run<S>, k: nat, room: nat)
    requires s.Valid()
  {
    && e.result == Pending
    && e.pair.client.exchange == s.ClientAt(k) && e.pair.client.tx == Some(s.Req(k))
    && e.pair.server.node == s.node && e.pair.server.room == room
    && e.pair.server.transfer == s.ServerAt(k) && e.pair.server.tx == None
  }

  ghost predicate Finished<S>(e: Run<S>, node: Byte, result: Result) {
    && Quiescent(e.pair, node)
    && e.result == result
    && (!result.Failed? || !result.error.ClientAborted? ==> e.pair.client.tx == None)
  }

  lemma Starts<S>(s: Session, p: Pair, od: Dictionary<S>, app: Application<S>, clock: nat -> nat, op: Op, now: nat)
    requires s.Valid() && Quiescent(p, s.node) && s.idx == op.idx && s.sub == op.sub
    requires s.upload == op.Get? && (op.Put? ==> s.bytes == op.data)
    ensures Underway(s, After(Begin(p, s.node, op, now).0, od, app, clock, 0), 0, p.server.room)
    ensures Exchanges(|s.bytes|) == s.Last() + 1
  {
  }

  /** The server answered: the client takes the next step of the session. */
  lemma AnswerAdvances<S>(s: Session, e: Run<S>, k: nat, room: nat, now: nat)
    requires s.Valid() && k <= s.Last() && Underway(s, e, k, room)
    requires Answered(s, e.pair.server, e.pair.server.Handle(s.Req(k), now, e.od).server, k)
    ensures var x := Exchange(e.pair, e.od, now);
            && x.od == e.pair.server.Handle(s.Req(k), now, e.od).od
            && if k < s.Last() then Underway(s, x, k + 1, room) else Finished(x, s.node, s.FinalResult())
  {
    hide Server.Handle, Client.Handle, Session.RequestBody, Session.ResponseBody, Session.Last;
    ClientAdvances(s, e.pair.client.(tx := None), k, now);
  }

  /** The server gave up: the client learns the code. */
  lemma AbortEnds<S>(s: Session, e: Run<S>, k: nat, room: nat, now: nat, code: AbortCode)
    requires s.Valid() && Underway(s, e, k, room)
    requires GaveUp(s, e.pair.server, e.pair.server.Handle(s.Req(k), now, e.od).server, code)
    ensures var x := Exchange(e.pair, e.od, now);
            && x.od == e.pair.server.Handle(s.Req(k), now, e.od).od
            && Finished(x, s.node, Failed(ServerAborted(FromRaw(Raw(code)))))
  {
    hide Server.Handle, Client.Handle, Session.RequestBody, Session.ResponseBody, Session.Last;
    ClientLearnsAbort(s, e.pair.client.(tx := None), k, code, now);
  }

  /** The session a read opens. */
  function Opened<S>(od: Dictionary<S>, node: Byte, op: Op, room: nat): Session
    requires op.Get?
  {
    var (_, reply) := od.Read(op.idx, op.sub, room);
    Session(node, op.idx, op.sub, true,
            if reply.ReadOk? && reply.len <= room then Fill(reply.len, reply.bytes) else [])
  }

  lemma {:induction false} UploadProgress<S>(p: Pair, od: Dictionary<S>, app: Application<S>, clock: nat -> nat,
                                             node: Byte, op: Op, now: nat, k: nat)
    requires op.Get? && Quiescent(p, node)
    requires od.Read(op.idx, op.sub, p.server.room).1.ReadOk?
    requires od.Read(op.idx, op.sub, p.server.room).1.len <= p.server.room
    requires 1 <= k <= Opened(od, node, op, p.server.room).Last()
    ensures var e := After(Begin(p, node, op, now).0, od, app, clock, k);
            && Underway(Opened(od, node, op, p.server.room), e, k, p.server.room)
            && e.od == Drift(od.Read(op.idx, op.sub, p.server.room).0, app, k)
    decreases k
  {
    hide Server.Handle, Client.Handle, Session.RequestBody, Session.ResponseBody, Session.Last;
    var s := Opened(od, node, op, p.server.room);
    var b := Begin(p, node, op, now).0;
    if k == 1 {
      var e := After(b, od, app, clock, 0);
      Starts(s, p, od, app, clock, op, now);
      ServerOpensUpload(s, b.server, clock(0), od);
      AnswerAdvances(s, e, 0, p.server.room, clock(0));
      assert Drift(od.Read(op.idx, op.sub, p.server.room).0, app, 0) == od.Read(op.idx, op.sub, p.server.room).0;
    } else {
      UploadProgress(p, od, app, clock, node, op, now, k - 1);
      var e := After(b, od, app, clock, k - 1);
      ServerServesSegment(s, e.pair.server, k - 1, clock(k - 1), e.od);
      AnswerAdvances(s, e, k - 1, p.server.room, clock(k - 1));
    }
  }

  /** A read ends after its exact number of exchanges with the value the single
      dictionary read gave, whatever the application does to the object meanwhile. */
  lemma UploadIsASnapshot<S>(p: Pair, od: Dictionary<S>, app: Application<S>, clock: nat -> nat,
                             node: Byte, op: Op, now: nat)
    requires op.Get? && Quiescent(p, node)
    ensures var e := After(Begin(p, node, op, now).0, od, app, clock, Cost(od, op, p.server.room));
            && Finished(e, node, Direct(od, op, p.server.room).1)
            && e.od == Drift(Direct(od, op, p.server.room).0, app, Cost(od, op, p.server.room))
    ensures forall m :: 0 <= m < Cost(od, op, p.server.room) ==>
              After(Begin(p, node, op, now).0, od, app, clock, m).result == Pending
  {
    hide Server.Handle, Client.Handle, Session.RequestBody, Session.ResponseBody, Session.Last;
    var room := p.server.room;
    var s := Opened(od, node, op, room);
    var b := Begin(p, node, op, now).0;
    var (od', reply) := od.Read(op.idx, op.sub, room);
    var e0 := After(b, od, app, clock, 0);
    Starts(s, p, od, app, clock, op, now);
    if reply.ReadErr? || reply.len > room {
      ServerOpensUpload(s, b.server, clock(0), od);
      var code := if reply.ReadErr? then reply.code else OutOfMemory;
      AbortEnds(s, e0, 0, room, clock(0), code);
      assert Drift(od', app, 0) == od';
    } else {
      var l := s.Last();
      forall m | 1 <= m <= l
        ensures After(b, od, app, clock, m).result == Pending
      {
        UploadProgress(p, od, app, clock, node, op, now, m);
      }
      if l == 0 {
        ServerOpensUpload(s, b.server, clock(0), od);
        AnswerAdvances(s, e0, 0, room, clock(0));
        assert Drift(od', app, 0) == od';
      } else {
        UploadProgress(p, od, app, clock, node, op, now, l);
        var e := After(b, od, app, clock, l);
        ServerServesSegment(s, e.pair.server, l, clock(l), e.od);
        AnswerAdvances(s, e, l, room, clock(l));
      }
    }
  }

  lemma {:induction false} DownloadProgress<S>(p: Pair, od: Dictionary<S>, app: Application<S>, clock: nat -> nat,
                                               node: Byte, op: Op, now: nat, k: nat)
    requires op.Put? && |op.data| > 4 && Quiescent(p, node) && |op.data| % TWO32 <= p.server.room
    requires k <= Session(node, op.idx, op.sub, false, op.data).Last()
    requires k >= 1 ==> |Upto(op.data, k - 1)| <= p.server.room
    ensures var e := After(Begin(p, node, op, now).0, od, app, clock, k);
            && Underway(Session(node, op.idx, op.sub, false, op.data), e, k, p.server.room)
            && e.od == Drift(od, app, k)
    decreases k
  {
    hide Server.Handle, Client.Handle, Session.RequestBody, Session.ResponseBody, Session.Last;
    var s := Session(node, op.idx, op.sub, false, op.data);
    var b := Begin(p, node, op, now).0;
    if k == 0 {
      Starts(s, p, od, app, clock, op, now);
    } else {
      DownloadProgress(p, od, app, clock, node, op, now, k - 1);
      var e := After(b, od, app, clock, k - 1);
      if k == 1 {
        LastRequest(s, 0);
        ServerOpensDownload(s, e.pair.server, clock(0), e.od);
      } else {
        ServerTakesSegment(s, e.pair.server, k - 1, clock(k - 1), e.od);
      }
      AnswerAdvances(s, e, k - 1, p.server.room, clock(k - 1));
    }
  }

  /** Every request before the one that ends a write finds room in the server. */
  lemma EndingRequest(s: Session, room: nat, j: nat)
    requires s.Valid() && !s.upload && !s.Short() && |s.bytes| % TWO32 <= room
    requires j == if |s.bytes| > room then room / 7 + 1 else s.Last()
    ensures 1 <= j <= s.Last()
    ensures forall k :: 0 <= k < j ==> |Upto(s.bytes, k)| <= room
    ensures |Upto(s.bytes, j)| > room <==> |s.bytes| > room
  {
    LastRequest(s, 0);
    LastRequest(s, j);
    if |s.bytes| > room {
      assert 7 * (room / 7) <= room < 7 * (room / 7) + 7;
      if j >= 2 {
        LastRequest(s, j - 1);
      }
    }
  }

  /** A write ends after its exact number of exchanges with the result of the one
      dictionary write made by its last request. */
  lemma DownloadIsOneWrite<S>(p: Pair, od: Dictionary<S>, app: Application<S>, clock: nat -> nat,
                              node: Byte, op: Op, now: nat)
    requires op.Put? && op.data != [] && Quiescent(p, node)
    ensures var n := Cost(od, op, p.server.room);
            var e := After(Begin(p, node, op, now).0, od, app, clock, n);
            var (od', r) := Direct(Drift(od, app, n - 1), op, p.server.room);
            n >= 1 && Finished(e, node, r) && e.od == Touch(od', app, n - 1)
    ensures forall m :: 0 <= m < Cost(od, op, p.server.room) ==>
              After(Begin(p, node, op, now).0, od, app, clock, m).result == Pending
  {
    hide Server.Handle, Client.Handle, Session.RequestBody, Session.ResponseBody, Session.Last, Upto, Direct;
    var room := p.server.room;
    var b := Begin(p, node, op, now).0;
    if |op.data| <= 4 || |op.data| % TWO32 > room {
      DownloadEndsAtOnce(p, od, node, op, now, clock(0));
      AfterOne(b, od, app, clock);
    } else {
      var s := Session(node, op.idx, op.sub, false, op.data);
      var j := if |op.data| > room then room / 7 + 1 else s.Last();
      Starts(s, p, od, app, clock, op, now);
      LastRequest(s, 0);
      EndingRequest(s, room, j);
      forall m | 0 <= m <= j
        ensures After(b, od, app, clock, m).result == Pending
      {
        DownloadProgress(p, od, app, clock, node, op, now, m);
      }
      DownloadProgress(p, od, app, clock, node, op, now, j);
      LastStep(s, After(b, od, app, clock, j), j, room, clock(j));
    }
  }

  lemma AfterOne<S>(p: Pair, od: Dictionary<S>, app: Application<S>, clock: nat -> nat)
    requires p.client.tx.Some?
    ensures After(p, od, app, clock, 0) == Run(p, od, Pending) && Drift(od, app, 0) == od
    ensures var x := Exchange(p, od, clock(0));
            After(p, od, app, clock, 1) == x.(od := Touch(x.od, app, 0))
  {
    hide Exchange;
    assert After(p, od, app, clock, 0) == Run(p, od, Pending);
  }

  /** A short write, or one announced too long, is settled by its opening request. */
  lemma DownloadEndsAtOnce<S>(p: Pair, od: Dictionary<S>, node: Byte, op: Op, now: nat, later: nat)
    requires op.Put? && op.data != [] && Quiescent(p, node)
    requires |op.data| <= 4 || |op.data| % TWO32 > p.server.room
    ensures Cost(od, op, p.server.room) == 1 && Begin(p, node, op, now).0.client.tx.Some?
    ensures var x := Exchange(Begin(p, node, op, now).0, od, later);
            var (od', r) := Direct(od, op, p.server.room);
            Finished(x, node, r) && x.od == od'
  {
    hide Server.Handle, Client.Handle, Session.RequestBody, Session.ResponseBody, Session.Last, Upto;
    var room := p.server.room;
    var s := Session(node, op.idx, op.sub, false, op.data);
    var b := Begin(p, node, op, now).0;
    var e0 := Run(b, od, Pending);
    Starts(s, p, od, Untouched(), _ => 0, op, now);
    LastRequest(s, 0);
    ServerOpensDownload(s, b.server, later, od);
    var refused := od.Write(op.idx, op.sub, op.data).1;
    if !s.Short() {
      AbortEnds(s, e0, 0, room, later, OutOfMemory);
    } else if refused.Some? {
      AbortEnds(s, e0, 0, room, later, refused.value);
    } else {
      AnswerAdvances(s, e0, 0, room, later);
    }
  }

  /** The request that ends a write either finds no room, or fails the size check, or writes. */
  lemma LastStep<S>(s: Session, e: Run<S>, j: nat, room: nat, now: nat)
    requires s.Valid() && !s.upload && !s.Short() && |s.bytes| % TWO32 <= room
    requires j == if |s.bytes| > room then room / 7 + 1 else s.Last()
    requires j <= s.Last() && Underway(s, e, j, room)
    ensures var (od', r) := Direct(e.od, Put(s.idx, s.sub, s.bytes), room);
            var x := Exchange(e.pair, e.od, now);
            x.od == od' && Finished(x, s.node, r)
  {
    hide Server.Handle, Client.Handle, Session.RequestBody, Session.ResponseBody, Session.Last, Upto;
    EndingRequest(s, room, j);
    ServerTakesSegment(s, e.pair.server, j, now, e.od);
    var refused := e.od.Write(s.idx, s.sub, s.bytes).1;
    if |s.bytes| > room {
      AbortEnds(s, e, j, room, now, OutOfMemory);
    } else if |s.bytes| >= TWO32 {
      AbortEnds(s, e, j, room, now, DataTypeLengthMismatch);
    } else if refused.Some? {
      AbortEnds(s, e, j, room, now, refused.value);
    } else {
      AnswerAdvances(s, e, j, room, now);
    }
  }

  // ----- sequences of operations -----

  /** Run one operation to its end over the pair of machines. */
  function Perform<S>(p: Pair, od: Dictionary<S>, node: Byte, op: Op, clock: nat -> nat): Run<S> {
    var (b, error) := Begin(p, node, op, clock(0));
    if error.Some? then Run(b, od, Failed(error.value))
    else After(b, od, Untouched(), clock, Cost(od, op, p.server.room))
  }

  /** Over the pair an operation is a direct call: same result, same dictionary, both
      machines idle and both slots empty afterwards, and not one exchange sooner. */
  lemma PerformIsDirect<S>(p: Pair, od: Dictionary<S>, node: Byte, op: Op, clock: nat -> nat)
    requires Quiescent(p, node)
    ensures var e := Perform(p, od, node, op, clock);
            var (od', r) := Direct(od, op, p.server.room);
            && e.result == r && e.od == od' && Quiescent(e.pair, node) && e.pair.server.room == p.server.room
            && (r.Done? || (r.Failed? && r.error.ServerAborted?) ==> e.pair.client.tx == None)
  {
    hide Server.Handle, Client.Handle, Session.RequestBody, Session.ResponseBody, Upto;
    var n := Cost(od, op, p.server.room);
    RoomIsFixed(Begin(p, node, op, clock(0)).0, od, Untouched(), clock, n);
    if op.Get? {
      UploadIsASnapshot(p, od, Untouched(), clock, node, op, clock(0));
      UntouchedDoesNotDrift(Direct(od, op, p.server.room).0, n);
    } else if op.data != [] {
      DownloadIsOneWrite(p, od, Untouched(), clock, node, op, clock(0));
      UntouchedDoesNotDrift(od, n - 1);
    }
  }

  /** Whichever code the dictionary refuses with, on a read, a short write or the last
      segment, is the code the client reports, unless it hides a listed number. */
  lemma AbortCodesArrive<S>(p: Pair, od: Dictionary<S>, node: Byte, op: Op, clock: nat -> nat, code: AbortCode)
    requires Quiescent(p, node)
    requires op.Get? ==> od.Read(op.idx, op.sub, p.server.room).1 == ReadErr(code)
    requires op.Put? ==>
      && op.data != [] && |op.data| < TWO32 && (|op.data| > 4 ==> |op.data| <= p.server.room)
      && od.Write(op.idx, op.sub, op.data).1 == Some(code)
    ensures var e := Perform(p, od, node, op, clock);
            && e.result == Failed(ServerAborted(FromRaw(Raw(code)))) && Quiescent(e.pair, node)
            && e.pair.client.tx == None
            && (e.result == Failed(ServerAborted(code)) <==> Canonical(code))
  {
    hide Perform, Raw, FromRaw, Canonical;
    PerformIsDirect(p, od, node, op, clock);
    AbortCodeRoundTrip(0, code, op.idx, op.sub);
    AbortBodyFields(op.idx, op.sub, code);
  }

  lemma {:induction false} RoomIsFixed<S>(p: Pair, od: Dictionary<S>, app: Application<S>, clock: nat -> nat, n: nat)
    ensures After(p, od, app, clock, n).pair.server.room == p.server.room
    decreases n
  {
    hide Server.Handle, Client.Handle;
    if n > 0 {
      RoomIsFixed(p, od, app, clock, n - 1);
      var e := After(p, od, app, clock, n - 1);
      if e.pair.client.tx.Some? {
        ConfigurationIsFixed(e.pair.server, e.pair.client.tx.value, clock(n - 1), e.od);
      }
    }
  }

  function PerformAll<S>(p: Pair, od: Dictionary<S>, node: Byte, ops: seq<(Op, nat -> nat)>)
    : (Pair, Dictionary<S>, seq<Result>)
  {
    if ops == [] then (p, od, [])
    else
      var n := |ops| - 1;
      var (q, od', results) := PerformAll(p, od, node, ops[..n]);
      var e := Perform(q, od', node, ops[n].0, ops[n].1);
      (e.pair, e.od, results + [e.result])
  }

  function DirectAll<S>(od: Dictionary<S>, ops: seq<(Op, nat -> nat)>, room: nat): (Dictionary<S>, seq<Result>) {
    if ops == [] then (od, [])
    else
      var n := |ops| - 1;
      var (od', results) := DirectAll(od, ops[..n], room);
      var (od'', r) := Direct(od', ops[n].0, room);
      (od'', results + [r])
  }

  /** Any sequence of reads and writes over the pair gives the results and the final
      dictionary of making the calls directly, at any times. */
  lemma {:induction false} LoopbackRefinesDictionary<S>(p: Pair, od: Dictionary<S>, node: Byte,
                                                        ops: seq<(Op, nat -> nat)>)
    requires Quiescent(p, node)
    ensures var (q, od', results) := PerformAll(p, od, node, ops);
            && (od', results) == DirectAll(od, ops, p.server.room)
            && Quiescent(q, node) && q.server.room == p.server.room
    decreases |ops|
  {
    hide Perform, Direct;
    if ops != [] {
      var n := |ops| - 1;
      LoopbackRefinesDictionary(p, od, node, ops[..n]);
      var (q, od', _) := PerformAll(p, od, node, ops[..n]);
      PerformIsDirect(q, od', node, ops[n].0, ops[n].1);
    }
  }
}
