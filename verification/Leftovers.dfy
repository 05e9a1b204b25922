/** One transfer over a bad bus that is not empty at the start: frames of earlier transfers
    are still on their way to the client. Exactly which of them make a transfer report a
    success it did not have. */
module Leftovers {
  import opened Segments
  import opened Wire
  import opened ClientSpec
  import opened ServerSpec
  import opened Protocol
  import opened Lineups
  import opened Channel
  import opened Course

  // ----- every line-up can happen -----

  lemma {:induction false} PlayJoins(net: Net, a: seq<Event>, b: seq<Event>)
    ensures Play(net, a + b) == Play(Play(net, a), b)
    decreases |b|
  {
    hide Next;
    if b == [] {
      assert a + b == a;
    } else {
      var k := |b| - 1;
      PlayJoins(net, a, b[..k]);
      assert (a + b)[..|a + b| - 1] == a + b[..k] && (a + b)[|a + b| - 1] == b[k];
    }
  }

  lemma PlayOne(net: Net, e: Event)
    ensures Play(net, [e]) == Next(net, e)
  {
    hide Next;
    assert [e][..0] == [];
    assert Play(net, []) == net;
  }

  /** A run may lose the head of the queue any number of times. */
  lemma {:induction false} LoseSome(net: Net, k: nat) returns (events: seq<Event>)
    requires k <= |net.down|
    ensures Play(net, events) == net.(down := net.down[k..])
    decreases k
  {
    if k == 0 {
      events := [];
      assert Play(net, events) == net && net.down[0..] == net.down;
    } else {
      var front := LoseSome(net, k - 1);
      events := front + [LoseDown];
      PlayJoins(net, front, [LoseDown]);
      PlayOne(Play(net, front), LoseDown);
      assert net.down[k - 1..][1..] == net.down[k..];
    }
  }

  /** Requests number `i` to `n`. */
  function Asking(s: Session, i: nat, n: nat): seq<SdoFrame>
    requires s.Valid() && i <= n + 1
  {
    seq(n + 1 - i, j requires 0 <= j => s.Req(i + j))
  }

  /** The server has answered `m` requests and holds no answer back. */
  ghost predicate Served(s: Session, store0: Store, net: Net, m: nat, n: nat)
    requires s.Valid()
  {
    && m <= n + 1 && net.up == Asking(s, m, n)
    && net.server.node == s.node && net.server.transfer == s.ServerAt(m) && net.server.tx == None
    && net.store == StoreAt(s, store0, m)
  }

  lemma ServerAnswers(s: Session, store0: Store, v: Server, store: Store, i: nat, now: nat)
    requires s.Valid() && Reads(s, store0) && (!s.upload ==> |s.bytes| < TWO32)
    requires i < Answers(s, store0, v.room)
    requires v.node == s.node && v.transfer == s.ServerAt(i) && store == StoreAt(s, store0, i)
    ensures var step := v.Handle(s.Req(i), now, Keeper(store, None));
            Answered(s, v, step.server, i) && step.od.state == StoreAt(s, store0, i + 1)
  {
    hide Server.Handle, Answered, Keeper, Session.RequestBody;
    if s.upload {
      ServerAnswersRead(s, store0, v, i, now);
    } else {
      ServerAnswersWrite(s, store0, v, store, i, now);
    }
  }

  lemma ServerAnswersRead(s: Session, store0: Store, v: Server, i: nat, now: nat)
    requires s.Valid() && s.upload && Reads(s, store0) && i < Answers(s, store0, v.room)
    requires v.node == s.node && v.transfer == s.ServerAt(i)
    ensures var step := v.Handle(s.Req(i), now, Keeper(store0, None));
            Answered(s, v, step.server, i) && step.od.state == store0
  {
    hide Server.Handle, Session.RequestBody, Session.ResponseBody, Session.Last, Upto, Answered, Session.ServerAt,
      Keeper;
    KeeperReads(store0, None, s.idx, s.sub, v.room);
    if i == 0 {
      ServerOpensUpload(s, v, now, Keeper(store0, None));
      KeeperGives(store0, s.idx, s.sub, v.room);
    } else {
      ServerServesSegment(s, v, i, now, Keeper(store0, None));
    }
  }

  lemma ServerAnswersWrite(s: Session, store0: Store, v: Server, store: Store, i: nat, now: nat)
    requires s.Valid() && !s.upload && |s.bytes| < TWO32 && i < Answers(s, store0, v.room)
    requires v.node == s.node && v.transfer == s.ServerAt(i) && store == StoreAt(s, store0, i)
    ensures var step := v.Handle(s.Req(i), now, Keeper(store, None));
            Answered(s, v, step.server, i) && step.od.state == StoreAt(s, store0, i + 1)
  {
    hide Server.Handle, Session.RequestBody, Session.ResponseBody, Session.Last, Upto, Answered, Session.ServerAt,
      Keeper;
    LastRequest(s, 0);
    KeeperReads(store, None, s.idx, s.sub, v.room);
    KeeperWrites(store, s.idx, s.sub, s.bytes);
    if i == 0 {
      ServerOpensDownload(s, v, now, Keeper(store, None));
    } else {
      ServerTakesSegment(s, v, i, now, Keeper(store, None));
      UptoFits(s.bytes, i);
    }
  }

  lemma KeeperWrites(store: Store, idx: U16, sub: Byte, data: seq<Byte>)
    ensures var (od, refused) := Keeper(store, None).Write(idx, sub, data);
            refused == None && od.state == store[(idx, sub) := data]
  {
  }

  lemma UptoFits(v: seq<Byte>, k: nat)
    ensures |Upto(v, k)| <= |v|
  {
  }

  lemma KeeperGives(store: Store, idx: U16, sub: Byte, room: nat)
    requires (idx, sub) in store && |store[(idx, sub)]| <= room
    ensures Keeper(store, None).Read(idx, sub, room).1.ReadOk?
  {
  }

  /** With nothing on the way back, the server answers the next request. */
  lemma ServesNext(s: Session, store0: Store, net: Net, m: nat, n: nat)
    requires s.Valid() && Reads(s, store0) && (!s.upload ==> |s.bytes| < TWO32)
    requires m < Answers(s, store0, net.server.room)
    requires Served(s, store0, net, m, n) && m <= n && net.down == []
    ensures var end := Next(Next(net, ToServer(false, 0, None)), ServerSends);
            && Served(s, store0, end, m + 1, n)
            && end.down == [s.Resp(m)]
            && end.server.room == net.server.room
            && end.client == net.client
            && end.verdict == net.verdict
  {
    hide Server.Handle, Session.RequestBody, Session.ResponseBody, Session.Last, Keeper, Session.ServerAt, StoreAt,
      Answers, Asking;
    AskingNext(s, m, n);
    ServerAnswers(s, store0, net.server, net.store, m, 0);
    assert [] + [s.Resp(m)] == [s.Resp(m)];
  }

  lemma AskingNext(s: Session, m: nat, n: nat)
    requires s.Valid() && m <= n
    ensures Asking(s, m, n) != [] && Asking(s, m, n)[0] == s.Req(m) && Asking(s, m, n)[1..] == Asking(s, m + 1, n)
  {
  }

  /** The server answers the next request, and the answer is all there is on the way back. */
  lemma ServeOne(s: Session, store0: Store, net: Net, m: nat, n: nat) returns (events: seq<Event>)
    requires s.Valid() && Reads(s, store0) && (!s.upload ==> |s.bytes| < TWO32)
    requires m < Answers(s, store0, net.server.room)
    requires Served(s, store0, net, m, n) && m <= n && |net.down| <= 1
    ensures var end := Play(net, events);
            && Served(s, store0, end, m + 1, n)
            && end.down == [s.Resp(m)]
            && end.server.room == net.server.room
            && end.client == net.client
            && end.verdict == net.verdict
  {
    hide Served, Answers, Session.RequestBody, Session.ResponseBody, Next, Play;
    var lose := LoseSome(net, |net.down|);
    var a := Play(net, lose);
    ServedElsewhere(s, store0, net, a, m, n);
    ServesNext(s, store0, a, m, n);
    events := lose + [ToServer(false, 0, None)] + [ServerSends];
    PlayJoins(net, lose, [ToServer(false, 0, None)]);
    PlayOne(a, ToServer(false, 0, None));
    PlayJoins(net, lose + [ToServer(false, 0, None)], [ServerSends]);
    PlayOne(Next(a, ToServer(false, 0, None)), ServerSends);
  }

  lemma {:induction false} ServeUpTo(s: Session, store0: Store, net: Net, m: nat, j: nat,
                                     n: nat) returns (events: seq<Event>)
    requires s.Valid() && Reads(s, store0) && (!s.upload ==> |s.bytes| < TWO32)
    requires j < Answers(s, store0, net.server.room)
    requires Served(s, store0, net, m, n) && m <= j <= n && |net.down| <= 1
    ensures var end := Play(net, events);
            && Served(s, store0, end, j + 1, n) && end.down == [s.Resp(j)] && end.server.room == net.server.room
            && end.client == net.client && end.verdict == net.verdict
    decreases j - m
  {
    hide Served, Answers, Session.RequestBody, Session.ResponseBody, Next;
    if m == j {
      events := ServeOne(s, store0, net, m, n);
    } else {
      var front := ServeUpTo(s, store0, net, m, j - 1, n);
      var last := ServeOne(s, store0, Play(net, front), j, n);
      events := front + last;
      PlayJoins(net, front, last);
    }
  }

  /** How many answers of the server a line-up goes through. */
  function Given(left: seq<SdoFrame>, qs: seq<nat>): nat { if Passed(qs) > |left| then Passed(qs) - |left| else 0 }

  function Behind(left: seq<SdoFrame>, p: nat): seq<SdoFrame> { if p <= |left| then left[p..] else [] }

  /** The client has just heard `qs`, every request is on its way, and the server has
      answered no more than it had to. */
  ghost predicate Posed(s: Session, store0: Store, left: seq<SdoFrame>, g: nat, net: Net, qs: seq<nat>)
    requires s.Valid()
  {
    && g == Answers(s, store0, net.server.room) && Served(s, store0, net, Given(left, qs), |qs|)
    && Hear(s, Line(s, left, g), qs) == (net.client.exchange, Pending) && net.client.exchange != Rest
    && net.client.tx == None && net.verdict == Pending && net.down == Behind(left, Passed(qs))
  }

  /** Frame `q` of the line is in front of the client. */
  ghost predicate Ready(s: Session, store0: Store, left: seq<SdoFrame>, g: nat, net: Net, end: Net, qs: seq<nat>,
                        q: nat)
    requires s.Valid() && q < |Line(s, left, g)|
  {
    && Served(s, store0, end, Given(left, qs + [q]), |qs|) && end.server.room == net.server.room
    && end.client == net.client && end.verdict == net.verdict
    && end.down == [Line(s, left, g)[q]] + Behind(left, q + 1)
  }

  /** A run can put it there: a frame left over by losing those before it, ... */
  lemma FetchesLeftover(s: Session, store0: Store, left: seq<SdoFrame>, g: nat, net: Net, qs: seq<nat>, q: nat)
    returns (events: seq<Event>)
    requires s.Valid() && Posed(s, store0, left, g, net, qs) && Passed(qs) <= q < |left|
    ensures q < |Line(s, left, g)| && Ready(s, store0, left, g, net, Play(net, events), qs, q)
  {
    hide Served, Answers, Hear, Line, Play, Session.RequestBody, Session.ResponseBody, Next, Behind, Given, Passed;
    LineLength(s, left, g);
    GivenNone(left, qs, q);
    BehindDrops(left, Passed(qs), q);
    events := LoseSome(net, q - Passed(qs));
    ServedElsewhere(s, store0, net, Play(net, events), 0, |qs|);
  }

  lemma GivenNone(left: seq<SdoFrame>, qs: seq<nat>, q: nat)
    requires Passed(qs) <= q < |left|
    ensures Given(left, qs) == 0 && Given(left, qs + [q]) == 0
  {
    assert Final(qs + [q]) == q;
  }

  lemma BehindDrops(left: seq<SdoFrame>, p: nat, q: nat)
    requires p <= q < |left|
    ensures q - p <= |Behind(left, p)| && Behind(left, p)[q - p..] == [left[q]] + Behind(left, q + 1)
  {
    assert left[p..][q - p..] == left[q..] == [left[q]] + left[q + 1..];
  }

  /** ... an answer of the server by losing all that is left and letting it catch up. */
  lemma FetchesAnswer(s: Session, store0: Store, left: seq<SdoFrame>, g: nat, net: Net, qs: seq<nat>, q: nat)
    returns (events: seq<Event>)
    requires s.Valid() && Reads(s, store0) && (!s.upload ==> |s.bytes| < TWO32)
    requires Posed(s, store0, left, g, net, qs) && Passed(qs) <= q && |left| <= q < |Line(s, left, g)|
    requires q <= |left| + |qs|
    ensures Ready(s, store0, left, g, net, Play(net, events), qs, q)
  {
    hide Served, Answers, Hear, Line, Play, Session.RequestBody, Session.ResponseBody, Next;
    LineLength(s, left, g);
    assert Final(qs + [q]) == q;
    var lose := LoseSome(net, |net.down|);
    var clear := Play(net, lose);
    assert net.down[|net.down|..] == [];
    ServedElsewhere(s, store0, net, clear, Given(left, qs), |qs|);
    var serve := ServeUpTo(s, store0, clear, Given(left, qs), q - |left|, |qs|);
    events := lose + serve;
    PlayJoins(net, lose, serve);
    assert [s.Resp(q - |left|)] + [] == [s.Resp(q - |left|)];
  }

  lemma ServedElsewhere(s: Session, store0: Store, net: Net, net': Net, m: nat, n: nat)
    requires s.Valid() && Served(s, store0, net, m, n) && net'.up == net.up && net'.server == net.server
    requires net'.store == net.store
    ensures Served(s, store0, net', m, n)
  {
  }

  lemma HeadAndTail<T>(x: T, tail: seq<T>)
    ensures ([x] + tail)[0] == x && ([x] + tail)[1..] == tail
  {
  }

  /** The client hears it and sends its next request. */
  lemma HearsNext(s: Session, store0: Store, left: seq<SdoFrame>, g: nat, net: Net, a: Net, qs: seq<nat>, q: nat)
    requires s.Valid() && Posed(s, store0, left, g, net, qs) && Lineup(s, Line(s, left, g), |left|, qs + [q])
    requires q < |Line(s, left, g)| && Ready(s, store0, left, g, net, a, qs, q)
    requires !Hear(s, Line(s, left, g), qs + [q]).1.Failed?
    ensures var end := Next(Next(a, ToClient(false, 0)), ClientSends);
            var (x, r) := Hear(s, Line(s, left, g), qs + [q]);
            if r.Done? then end.verdict == r && end.store == StoreAt(s, store0, Given(left, qs + [q]))
            else Posed(s, store0, left, g, end, qs + [q])
  {
    hide Client.Handle, Served, Answers, Hear, Lineup, Take, Line, Session.RequestBody, Session.ResponseBody, StoreAt,
      Asked, Session.ClientAt, Behind, Given;
    var line := Line(s, left, g);
    FirstPasses(s, line, |left|, qs, q);
    var b := Next(a, ToClient(false, 0));
    TakeIsHandle(a.client, line[q], 0);
    HeadAndTail(line[q], Behind(left, q + 1));
    LineupStage(s, line, |left|, qs + [q]);
    ServedElsewhere(s, store0, a, b, Given(left, qs + [q]), |qs|);
    var m := Given(left, qs + [q]);
    ServedStore(s, store0, b, m, |qs|);
    if b.client.exchange != Rest {
      AskedIsTheRequest(s, b.client.exchange, |qs| + 1);
      ServedAfterAsking(s, store0, b, Next(b, ClientSends), m, |qs|);
    }
  }

  lemma Delivers(s: Session, store0: Store, left: seq<SdoFrame>, g: nat, net: Net, qs: seq<nat>,
                 q: nat) returns (events: seq<Event>)
    requires s.Valid() && Reads(s, store0) && (!s.upload ==> |s.bytes| < TWO32)
    requires Posed(s, store0, left, g, net, qs) && Lineup(s, Line(s, left, g), |left|, qs + [q])
    requires !Hear(s, Line(s, left, g), qs + [q]).1.Failed?
    ensures var end := Play(net, events);
            var (x, r) := Hear(s, Line(s, left, g), qs + [q]);
            if r.Done? then end.verdict == r && end.store == StoreAt(s, store0, Given(left, qs + [q]))
            else Posed(s, store0, left, g, end, qs + [q])
  {
    hide Posed, Ready, Hear, Lineup, Take, Line, StoreAt, Next, Play;
    FirstPasses(s, Line(s, left, g), |left|, qs, q);
    var fetch;
    if q < |left| {
      fetch := FetchesLeftover(s, store0, left, g, net, qs, q);
    } else {
      fetch := FetchesAnswer(s, store0, left, g, net, qs, q);
    }
    var a := Play(net, fetch);
    HearsNext(s, store0, left, g, net, a, qs, q);
    events := fetch + [ToClient(false, 0)] + [ClientSends];
    PlayJoins(net, fetch, [ToClient(false, 0)]);
    PlayOne(a, ToClient(false, 0));
    PlayJoins(net, fetch + [ToClient(false, 0)], [ClientSends]);
    PlayOne(Next(a, ToClient(false, 0)), ClientSends);
  }

  lemma ServedStore(s: Session, store0: Store, net: Net, m: nat, n: nat)
    requires s.Valid() && Served(s, store0, net, m, n)
    ensures net.store == StoreAt(s, store0, m)
  {
  }

  lemma ServedAfterAsking(s: Session, store0: Store, net: Net, net': Net, m: nat, n: nat)
    requires s.Valid() && Served(s, store0, net, m, n) && net'.server == net.server && net'.store == net.store
    requires net'.up == net.up + [s.Req(n + 1)]
    ensures Served(s, store0, net', m, n + 1)
  {
    assert Asking(s, m, n) + [s.Req(n + 1)] == Asking(s, m, n + 1);
  }

  /** Every line-up that completes is a run that reports its result, and in which the server
      has answered no more than the line-up goes through. */
  lemma {:induction false} LineupHappens(s: Session, store0: Store, left: seq<SdoFrame>, g: nat, net: Net, qs: seq<nat>)
    returns (events: seq<Event>)
    requires s.Valid() && Reads(s, store0) && (!s.upload ==> |s.bytes| < TWO32)
    requires Posed(s, store0, left, g, net, []) && Lineup(s, Line(s, left, g), |left|, qs)
    requires !Hear(s, Line(s, left, g), qs).1.Failed?
    ensures var end := Play(net, events);
            var (x, r) := Hear(s, Line(s, left, g), qs);
            if r.Done? then end.verdict == r && end.store == StoreAt(s, store0, Given(left, qs))
            else Posed(s, store0, left, g, end, qs)
    decreases |qs|
  {
    hide Posed, Hear, Line, StoreAt;
    if qs == [] {
      events := [];
      assert Play(net, events) == net;
      HearNothing(s, Line(s, left, g));
    } else {
      assert qs == Front(qs) + [Final(qs)];
      FirstPasses(s, Line(s, left, g), |left|, Front(qs), Final(qs));
      var front := LineupHappens(s, store0, left, g, net, Front(qs));
      var last := Delivers(s, store0, left, g, Play(net, front), Front(qs), Final(qs));
      events := front + last;
      PlayJoins(net, front, last);
    }
  }

  // ----- the theorems -----

  /** A client that starts `s` with `left` on its way to it, everything else at rest. */
  ghost predicate Begun(s: Session, net: Net) {
    && s.Valid() && net.client.exchange == s.ClientAt(0) && net.client.tx == Some(s.Req(0)) && net.verdict == Pending
    && net.server.node == s.node && net.server.transfer == Idle && net.server.tx == None && net.up == []
  }

  lemma BegunDown(s: Session, left: seq<SdoFrame>, g: nat)
    ensures Drawn(left, seq(|left|, i => i), Line(s, left, g), 0, |left|, TsdoId(s.node))
  {
    hide Line, IsAbort;
    LineLength(s, left, g);
  }

  lemma BegunUp(s: Session)
    requires s.Valid()
    ensures Drawn([s.Req(0)], [0], Requests(s, 0), 0, 1, RsdoId(s.node))
  {
    hide IsAbort, Session.RequestBody;
    RequestsLength(s, 0);
  }

  lemma BegunServer(s: Session, net: Net)
    requires Begun(s, net)
    ensures ServerIs(s, net.store, net.server, net.store, 0, 0)
  {
  }

  lemma BegunCourse(s: Session, net: Net) returns (os: seq<int>, at: seq<int>)
    requires Begun(s, net)
    ensures OnCourse(s, net.store, net.down, Answers(s, net.store, net.server.room), net, [], 0, 0, 0, os, at)
  {
    hide Session.RequestBody, Session.ResponseBody, Answers, Session.Last, Drawn, Line, Requests, IsAbort, ServerIs,
      Hear;
    os, at := [0], seq(|net.down|, i => i);
    var g := Answers(s, net.store, net.server.room);
    assert Pipe(net.up, net.client.tx) == [s.Req(0)] && Pipe(net.down, net.server.tx) == net.down;
    BegunUp(s);
    BegunDown(s, net.down, g);
    BegunServer(s, net);
    HearNothing(s, Line(s, net.down, g));
  }

  lemma BegunPosed(s: Session, net: Net)
    requires Begun(s, net)
    ensures Posed(s, net.store, net.down, Answers(s, net.store, net.server.room), Next(net, ClientSends), [])
  {
    hide Session.RequestBody, Session.ResponseBody, Answers;
    assert [] + [s.Req(0)] == Asking(s, 0, 0);
    HearNothing(s, Line(s, net.down, Answers(s, net.store, net.server.room)));
  }

  /** Whatever success a run reports is that of some line-up, the last frame of which was
      there to be heard. */
  lemma RunsAreLineups(s: Session, net: Net, events: seq<Event>) returns (qs: seq<nat>, m: nat)
    requires Begun(s, net) && Reads(s, net.store) && (!s.upload ==> |s.bytes| < TWO32)
    ensures var end := Play(net, events);
            var g := Answers(s, net.store, net.server.room);
            var line := Line(s, net.down, g);
            && end.store == StoreAt(s, net.store, m) && m <= g
            && (end.verdict.Done? ==>
                  Lineup(s, line, |net.down|, qs) && Hear(s, line, qs).1 == end.verdict && Passed(qs) <= |net.down| + m)
  {
    hide Lineup, Hear, Line, Answers, Drawn;
    var os, at := BegunCourse(s, net);
    var n, r;
    qs, n, m, r, os, at := CourseHolds(s, net.down, Answers(s, net.store, net.server.room), net, events, os, at);
    HearNothing(s, Line(s, net.down, Answers(s, net.store, net.server.room)));
  }

  lemma LineupsAreRuns(s: Session, net: Net, qs: seq<nat>) returns (events: seq<Event>)
    requires Begun(s, net) && Reads(s, net.store) && (!s.upload ==> |s.bytes| < TWO32)
    requires Lineup(s, Line(s, net.down, Answers(s, net.store, net.server.room)), |net.down|, qs)
    requires Hear(s, Line(s, net.down, Answers(s, net.store, net.server.room)), qs).1.Done?
    ensures var end := Play(net, events);
            && end.verdict == Hear(s, Line(s, net.down, Answers(s, net.store, net.server.room)), qs).1
            && end.store == StoreAt(s, net.store, Given(net.down, qs))
  {
    hide Lineup, Hear, Line, Answers, StoreAt, Posed;
    BegunPosed(s, net);
    var a := Next(net, ClientSends);
    var rest := LineupHappens(s, net.store, net.down, Answers(s, net.store, net.server.room), a, qs);
    events := [ClientSends] + rest;
    PlayOne(net, ClientSends);
    PlayJoins(net, [ClientSends], rest);
  }

  function ReadOf(net: Net, node: Byte, idx: U16, sub: Byte): Session {
    Session(node, idx, sub, true, if (idx, sub) in net.store then net.store[(idx, sub)] else [])
  }

  /** The line of a session: what is left over and what the server can answer. */
  function LineOf(s: Session, net: Net): seq<SdoFrame> { Line(s, net.down, Answers(s, net.store, net.server.room)) }

  ghost predicate Right(store: Store, idx: U16, sub: Byte, r: Result) {
    r.Done? ==> (idx, sub) in store && r == Done(UploadCompleted(store[(idx, sub)]))
  }

  /** Every run that reports a value reports the stored one. */
  ghost predicate ReadIsSafe(start: Net, idx: U16, sub: Byte) {
    forall events: seq<Event> :: Right(start.store, idx, sub, Play(start, events).verdict)
  }

  ghost predicate LineupsSpellTheValue(s: Session, net: Net) {
    forall qs: seq<nat> ::
      Lineup(s, LineOf(s, net), |net.down|, qs) ==> Right(net.store, s.idx, s.sub, Hear(s, LineOf(s, net), qs).1)
  }

  /** What runs of a read report is what line-ups report. */
  lemma ReadIsSafeIffLineupsAre(net: Net, node: Byte, idx: U16, sub: Byte, now: nat)
    requires Fresh(net.(down := []), node) && net.server.transfer == Idle
    ensures var start := net.(client := net.client.BeginUpload(node, idx, sub, now).0);
            ReadIsSafe(start, idx, sub) <==> LineupsSpellTheValue(ReadOf(net, node, idx, sub), net)
  {
    hide Lineup, Hear, Line, Answers, Play;
    var start := net.(client := net.client.BeginUpload(node, idx, sub, now).0);
    var s := ReadOf(net, node, idx, sub);
    assert Begun(s, start) && LineOf(s, start) == LineOf(s, net);
    if LineupsSpellTheValue(s, net) {
      forall events: seq<Event>
        ensures Right(start.store, idx, sub, Play(start, events).verdict)
      {
        var qs, m := RunsAreLineups(s, start, events);
      }
    }
    if ReadIsSafe(start, idx, sub) {
      forall qs: seq<nat> | Lineup(s, LineOf(s, net), |net.down|, qs)
        ensures Right(net.store, idx, sub, Hear(s, LineOf(s, net), qs).1)
      {
        if Hear(s, LineOf(s, net), qs).1.Done? {
          var events := LineupsAreRuns(s, start, qs);
          assert Right(start.store, idx, sub, Play(start, events).verdict);
        }
      }
    }
  }

  /** Whatever frames spell a value, by their identifiers, commands, toggles and sizes, spell
      the stored one. */
  ghost predicate FramesSpellTheValue(s: Session, net: Net) {
    forall qs: seq<nat> :: Spells(s, LineOf(s, net), |net.down|, qs) ==>
      (s.idx, s.sub) in net.store && Spelled(LineOf(s, net), qs) == net.store[(s.idx, s.sub)]
  }

  /** With any frames left over, a read of any length over a bad bus is safe if and only if
      the frames left over and the server's answers spell no value but the stored one. */
  lemma ReadIsSafeIff(net: Net, node: Byte, idx: U16, sub: Byte, now: nat)
    requires Fresh(net.(down := []), node) && net.server.transfer == Idle
    ensures var start := net.(client := net.client.BeginUpload(node, idx, sub, now).0);
            ReadIsSafe(start, idx, sub) <==> FramesSpellTheValue(ReadOf(net, node, idx, sub), net)
  {
    hide Lineup, Hear, Spells, Spelled, LineOf, ReadIsSafe;
    var s := ReadOf(net, node, idx, sub);
    ReadIsSafeIffLineupsAre(net, node, idx, sub, now);
    forall qs: seq<nat>
      ensures Spells(s, LineOf(s, net), |net.down|, qs) <==>
        Lineup(s, LineOf(s, net), |net.down|, qs) && Hear(s, LineOf(s, net), qs).1.Done?
      ensures Spells(s, LineOf(s, net), |net.down|, qs) ==>
        && qs != []
        && qs[0] < |LineOf(s, net)|
        && Hear(s, LineOf(s, net), qs).1 == Done(UploadCompleted(Spelled(LineOf(s, net), qs)))
    {
      SpellsIff(s, LineOf(s, net), |net.down|, qs);
      SpellsFirst(s, LineOf(s, net), |net.down|, qs);
    }
  }

  lemma SpellsFirst(s: Session, line: seq<SdoFrame>, base: nat, qs: seq<nat>)
    ensures Spells(s, line, base, qs) ==> qs != [] && qs[0] < |line|
  {
  }

  ghost predicate Stored(store0: Store, key: Key, data: seq<Byte>, end: Net) {
    end.verdict.Done? ==> end.store == store0[key := data]
  }

  /** Every run that reports success has stored the payload. */
  ghost predicate WriteIsSafe(start: Net, key: Key, data: seq<Byte>) {
    forall events: seq<Event> :: Stored(start.store, key, data, Play(start, events))
  }

  ghost predicate LineupsEndInTurn(s: Session, net: Net) {
    forall qs: seq<nat> :: Lineup(s, LineOf(s, net), |net.down|, qs) ==> EndsInTurn(s, net, qs)
  }

  /** With any frames left over, a write over a bad bus is safe if and only if the payload
      was stored already, or every line-up that completes ends with the server's own last
      answer. */
  lemma WriteIsSafeIff(net: Net, node: Byte, idx: U16, sub: Byte, data: seq<Byte>, now: nat)
    requires Fresh(net.(down := []), node) && net.server.transfer == Idle && 1 <= |data| < TWO32
    ensures var start := net.(client := net.client.BeginDownload(node, idx, sub, data, now).0);
            WriteIsSafe(start, (idx, sub), data) <==>
            net.store == net.store[(idx, sub) := data] || LineupsEndInTurn(Session(node, idx, sub, false, data), net)
  {
    hide Lineup, Hear, Line, Answers, Play, Session.Last;
    var start := net.(client := net.client.BeginDownload(node, idx, sub, data, now).0);
    var s := Session(node, idx, sub, false, data);
    assert Begun(s, start) && LineOf(s, start) == LineOf(s, net);
    if net.store == net.store[(idx, sub) := data] || LineupsEndInTurn(s, net) {
      forall events: seq<Event>
        ensures Stored(start.store, (idx, sub), data, Play(start, events))
      {
        var qs, m := RunsAreLineups(s, start, events);
      }
    }
    if net.store != net.store[(idx, sub) := data] && WriteIsSafe(start, (idx, sub), data) {
      forall qs: seq<nat> | Lineup(s, LineOf(s, net), |net.down|, qs)
        ensures EndsInTurn(s, net, qs)
      {
        if Hear(s, LineOf(s, net), qs).1.Done? {
          var events := LineupsAreRuns(s, start, qs);
          assert Stored(start.store, (idx, sub), data, Play(start, events));
          LineupStage(s, LineOf(s, net), |net.down|, qs);
          LineupReach(s, LineOf(s, net), |net.down|, qs);
        }
      }
    }
  }

  /** If the line-up completes, its last frame is the server's last answer. */
  ghost predicate EndsInTurn(s: Session, net: Net, qs: seq<nat>) {
    Hear(s, LineOf(s, net), qs).1.Done? ==> Passed(qs) == |net.down| + s.Last() + 1
  }

  // ----- what that means for writes -----

  /** The frames at `js`, in their order, would be taken for the first answers of the write. */
  ghost predicate StaleChain(s: Session, left: seq<SdoFrame>, js: seq<nat>) {
    && (forall i: nat :: i < |js| ==> js[i] < |left| && Acks(s, left[js[i]], i))
    && (forall i: nat :: 1 <= i < |js| ==> js[i - 1] < js[i])
  }

  /** How many it takes to mislead the client: with two segment acknowledgements too many it
      stays two ahead of the server to the end. */
  function Misleading(s: Session): nat { Least(s.Last(), 2) + 1 }

  /** A line-up that completes out of turn begins with such a chain. */
  lemma OutOfTurnIsStale(s: Session, net: Net, qs: seq<nat>)
    requires s.Valid() && !s.upload && Answers(s, net.store, net.server.room) == s.Last() + 1
    requires Lineup(s, LineOf(s, net), |net.down|, qs) && !EndsInTurn(s, net, qs)
    ensures Misleading(s) <= |qs| && StaleChain(s, net.down, qs[..Misleading(s)])
  {
    hide Hear, Lineup, Acks, Line, Session.Last, Session.ResponseBody, Answers;
    var line, base := LineOf(s, net), |net.down|;
    LineupStage(s, line, base, qs);
    LineLength(s, net.down, s.Last() + 1);
    var k := Misleading(s);
    forall i: nat | i < k
      ensures qs[i] < base && Acks(s, net.down[qs[i]], i) && (i > 0 ==> qs[i - 1] < qs[i])
    {
      WriteLineup(s, line, base, qs, i);
      if qs[i] == base + i {
        InStep(s, line, base, qs, i, |qs| - 1);
      }
      AnswersAck(s, 0, i);
      AnswersAck(s, 1, i);
    }
  }

  /** The frames that lead the client to the end: the chain, then the server's answers. */
  function LinkAt(left: seq<SdoFrame>, js: seq<nat>, t: nat): int { if t < |js| then js[t] else |left| + t - 2 }

  lemma Link(s: Session, net: Net, js: seq<nat>, t: nat)
    requires s.Valid() && !s.upload && Answers(s, net.store, net.server.room) == s.Last() + 1
    requires StaleChain(s, net.down, js) && |js| == Misleading(s) && t <= s.Last()
    ensures var q := LinkAt(net.down, js, t);
            && 0 <= q < |LineOf(s, net)| && q <= |net.down| + t && Acks(s, LineOf(s, net)[q], t)
            && (t > 0 ==> LinkAt(net.down, js, t - 1) < q)
  {
    hide Acks, Session.Last, Line, Answers, Session.ResponseBody;
    LineLength(s, net.down, s.Last() + 1);
    if t >= |js| {
      AnswersAck(s, t - 2, t);
    }
  }

  /** With such a chain the client can be led to the end. */
  lemma {:induction false} ChainGoesOn(s: Session, net: Net, js: seq<nat>, t: nat) returns (qs: seq<nat>)
    requires s.Valid() && !s.upload && Answers(s, net.store, net.server.room) == s.Last() + 1
    requires StaleChain(s, net.down, js) && |js| == Misleading(s) && t <= s.Last() + 1
    ensures |qs| == t && Lineup(s, LineOf(s, net), |net.down|, qs)
    ensures (t >= 1 ==> Final(qs) == LinkAt(net.down, js, t - 1))
    ensures Hear(s, LineOf(s, net), qs) ==
      if t <= s.Last() then (s.ClientAt(t), Pending) else (Rest, Done(DownloadCompleted))
    decreases t
  {
    hide Take, Acks, Session.Last, LineOf, LinkAt, StaleChain, Answers, Session.ClientAt;
    var line := LineOf(s, net);
    if t == 0 {
      qs := [];
    } else {
      var front := ChainGoesOn(s, net, js, t - 1);
      var q := LinkAt(net.down, js, t - 1);
      Link(s, net, js, t - 1);
      AcksMove(s, line[q], t - 1);
      HearOne(s, line, front, q);
      qs := front + [q];
      assert Front(qs) == front && Final(qs) == q;
      StagesDiffer(s, t - 1);
    }
  }

  /** For every write that fits the server: it is safe if and only if the payload was stored
      already, or no frames left over, in their order, would be taken for its opening
      acknowledgement and, where it has segments, for those of the first one or two. */
  lemma WriteIsSafeIffNoChain(net: Net, node: Byte, idx: U16, sub: Byte, data: seq<Byte>, now: nat)
    requires Fresh(net.(down := []), node) && net.server.transfer == Idle
    requires 1 <= |data| < TWO32 && (|data| > 4 ==> |data| <= net.server.room)
    ensures var start := net.(client := net.client.BeginDownload(node, idx, sub, data, now).0);
            var s := Session(node, idx, sub, false, data);
            WriteIsSafe(start, (idx, sub), data) <==>
            net.store == net.store[(idx, sub) := data]
            || forall js: seq<nat> :: StaleChain(s, net.down, js) ==> |js| != Misleading(s)
  {
    hide Lineup, Hear, StaleChain, WriteIsSafe, Session.Last;
    var s := Session(node, idx, sub, false, data);
    WriteIsSafeIff(net, node, idx, sub, data, now);
    if LineupsEndInTurn(s, net) {
      forall js: seq<nat> | StaleChain(s, net.down, js)
        ensures |js| != Misleading(s)
      {
        if |js| == Misleading(s) {
          var qs := ChainGoesOn(s, net, js, s.Last() + 1);
          assert EndsInTurn(s, net, qs);
          ChainIsShort(s, net.down, js);
        }
      }
    }
    if forall js: seq<nat> :: StaleChain(s, net.down, js) ==> |js| != Misleading(s) {
      forall qs: seq<nat> | Lineup(s, LineOf(s, net), |net.down|, qs)
        ensures EndsInTurn(s, net, qs)
      {
        if !EndsInTurn(s, net, qs) {
          OutOfTurnIsStale(s, net, qs);
        }
      }
    }
  }

  lemma ChainIsShort(s: Session, left: seq<SdoFrame>, js: seq<nat>)
    requires StaleChain(s, left, js) && js != []
    ensures Final(js) < |left|
  {
  }

  /** For a short write: no acknowledgement of the same object may be left over. */
  lemma ShortWriteIsSafeIff(net: Net, node: Byte, idx: U16, sub: Byte, data: seq<Byte>, now: nat)
    requires Fresh(net.(down := []), node) && net.server.transfer == Idle && 1 <= |data| <= 4
    ensures var start := net.(client := net.client.BeginDownload(node, idx, sub, data, now).0);
            var s := Session(node, idx, sub, false, data);
            WriteIsSafe(start, (idx, sub), data) <==>
            net.store == net.store[(idx, sub) := data] || forall i: nat :: i < |net.down| ==> !Acks(s, net.down[i], 0)
  {
    hide WriteIsSafe, Acks;
    var s := Session(node, idx, sub, false, data);
    WriteIsSafeIffNoChain(net, node, idx, sub, data, now);
    assert Misleading(s) == 1;
    forall i: nat | i < |net.down| && Acks(s, net.down[i], 0)
      ensures StaleChain(s, net.down, [i]) && |[i]| == Misleading(s)
    {
    }
    forall js: seq<nat> | StaleChain(s, net.down, js) && |js| == Misleading(s)
      ensures Acks(s, net.down[js[0]], 0)
    {
    }
  }

  // ----- what that means for reads -----

  /** Hearing the server's answers in turn is the transfer itself. */
  lemma {:induction false} HearInTurn(s: Session, left: seq<SdoFrame>, g: nat, qs: seq<nat>)
    requires s.Valid() && Lineup(s, Line(s, left, g), |left|, qs) && (qs != [] ==> qs[0] == |left|)
    requires g in {0, s.Last() + 1}
    ensures |qs| <= g && Hear(s, Line(s, left, g), qs) ==
      if |qs| <= s.Last() then (s.ClientAt(|qs|), Pending) else (Rest, s.FinalResult())
    ensures Passed(qs) == if qs == [] then 0 else |left| + |qs|
    decreases |qs|
  {
    hide Take, Line, Session.Last, Session.Resp, Session.ClientAt, Session.FinalResult;
    LineLength(s, left, g);
    if qs != [] {
      var n := |qs| - 1;
      HearInTurn(s, left, g, Front(qs));
      assert Final(qs) == |left| + n;
      TakesInTurn(s, n);
    }
  }

  /** Whatever the length: if no frame left over would be taken for the opening answer, the
      transfer is safe, whichever segments, aborts or foreign frames are left over. */
  lemma NothingOpensNothingHarms(s: Session, net: Net)
    requires s.Valid() && Reads(s, net.store)
    requires forall i: nat :: i < |net.down| ==> if s.upload then !Opens(s, net.down[i]) else !Acks(s, net.down[i], 0)
    ensures s.upload ==> LineupsSpellTheValue(s, net)
    ensures !s.upload ==> LineupsEndInTurn(s, net)
  {
    hide Hear, Lineup, Line, Opens, Acks, Take, Session.Last;
    forall qs: seq<nat> | Lineup(s, LineOf(s, net), |net.down|, qs)
      ensures s.upload ==> Right(net.store, s.idx, s.sub, Hear(s, LineOf(s, net), qs).1)
      ensures !s.upload ==> EndsInTurn(s, net, qs)
    {
      var g := Answers(s, net.store, net.server.room);
      if qs == [] {
        HearNothing(s, LineOf(s, net));
      } else if !Hear(s, LineOf(s, net), qs).1.Failed? {
        LineLength(s, net.down, g);
        FirstFrame(s, LineOf(s, net), |net.down|, qs);
        HearInTurn(s, net.down, g, qs);
      }
    }
  }

  /** In particular from a bus on which nothing is left, or nothing for this object. */
  lemma QuietBusIsSafe(net: Net, node: Byte, idx: U16, sub: Byte, data: seq<Byte>, now: nat)
    requires Fresh(net.(down := []), node) && net.server.transfer == Idle && 1 <= |data| < TWO32
    ensures var start := net.(client := net.client.BeginUpload(node, idx, sub, now).0);
            var s := ReadOf(net, node, idx, sub);
            (forall i: nat :: i < |net.down| ==> !Opens(s, net.down[i])) ==> ReadIsSafe(start, idx, sub)
    ensures var start := net.(client := net.client.BeginDownload(node, idx, sub, data, now).0);
            var s := Session(node, idx, sub, false, data);
            (forall i: nat :: i < |net.down| ==> !Acks(s, net.down[i], 0)) ==> WriteIsSafe(start, (idx, sub), data)
  {
    hide ReadIsSafe, WriteIsSafe, Opens, Acks, LineupsSpellTheValue, LineupsEndInTurn;
    var r, w := ReadOf(net, node, idx, sub), Session(node, idx, sub, false, data);
    ReadIsSafeIffLineupsAre(net, node, idx, sub, now);
    WriteIsSafeIff(net, node, idx, sub, data, now);
    if forall i: nat :: i < |net.down| ==> !Opens(r, net.down[i]) {
      NothingOpensNothingHarms(r, net);
    }
    if forall i: nat :: i < |net.down| ==> !Acks(w, net.down[i], 0) {
      NothingOpensNothingHarms(w, net);
    }
  }
}
