/** Short writes over a bus on which anything may be left over, in both directions, against
    a server in any state. */
module AnyBus {
  import opened Segments
  import opened Wire
  import opened ClientSpec
  import opened ServerSpec
  import opened Protocol
  import opened Lineups
  import opened Channel
  import opened Course
  import opened Leftovers

  /** A request left over that does no harm: it does not write another value to the object,
      and opens no download of it. */
  predicate Clean(s: Session, room: nat, f: SdoFrame) {
    (&& NodeOfRsdo(f.cobId) == Some(s.node)
     && Specifier(f.data[0]) == CCS_INIT_DOWNLOAD
     && IndexOf(f.data) == s.idx
     && SubOf(f.data) == s.sub) ==>
      if Expedited(f.data[0]) then f.data[4..4 + ExpeditedLength(f.data[0])] == s.bytes
      else SizeIndicated(f.data[0]) && SizeOf(f.data) > room
  }

  ghost predicate Holds(s: Session, store: Store) { (s.idx, s.sub) in store && store[(s.idx, s.sub)] == s.bytes }

  /** The payload is stored, and no open download of the object could replace it. */
  ghost predicate Settled(s: Session, v: Server, store: Store) {
    && Holds(s, store)
    && !(v.transfer.Downloading? && v.transfer.idx == s.idx && v.transfer.sub == s.sub)
  }

  ghost predicate NoAck(s: Session, q: seq<SdoFrame>) { forall i: nat :: i < |q| ==> !Acks(s, q[i], 0) }

  ghost predicate AllClean(s: Session, room: nat, q: seq<SdoFrame>) {
    forall i: nat :: i < |q| ==> Clean(s, room, q[i])
  }

  // ----- the server -----

  /** No answer but an initiate acknowledgement of the object can pass for one. */
  lemma AnswersThatDoNotAck(s: Session, idx: U16, sub: Byte, value: seq<Byte>, k: nat, toggle: bool, code: AbortCode)
    requires s.Valid() && !s.upload
    ensures !Acks(s, SdoFrame(TsdoId(s.node), InitUploadBody(idx, sub, value)), 0)
    ensures !Acks(s, SdoFrame(TsdoId(s.node), UploadSegmentBody(value, k)), 0)
    ensures !Acks(s, SdoFrame(TsdoId(s.node), DownloadSegmentAckBody(toggle)), 0)
    ensures !Acks(s, SdoFrame(TsdoId(s.node), AbortBody(idx, sub, code)), 0)
    ensures Acks(s, SdoFrame(TsdoId(s.node), InitDownloadAckBody(idx, sub)), 0) <==> (idx, sub) == (s.idx, s.sub)
  {
    hide InitUploadBody, UploadSegmentBody, DownloadSegmentAckBody, AbortBody, InitDownloadAckBody, Specifier, Toggle,
      IndexOf, NodeOfTsdo, TsdoId;
    var r := Session(s.node, idx, sub, true, value);
    var w := Session(s.node, idx, sub, false, [0]);
    UploadResponseFields(r, 0);
    UploadResponseFields(r, k + 1);
    DownloadResponseFields(w, 0);
    DownloadResponseFields(w, if toggle then 2 else 1);
    AbortBodyFields(idx, sub, code);
  }

  /** A clean request leaves no acknowledgement of the object behind unless it stored the
      payload, and what is settled stays so. */
  lemma CleanRequest(s: Session, v: Server, f: SdoFrame, now: nat, store: Store, refusal: Option<AbortCode>)
    requires s.Valid() && !s.upload && v.node == s.node && Clean(s, v.room, f)
    ensures var step := v.Handle(f, now, Keeper(store, refusal));
            && step.server.node == v.node
            && step.server.room == v.room
            && (Settled(s, v, store) ==> Settled(s, step.server, step.od.state))
            && (Settled(s, step.server, step.od.state)
                || step.server.tx == v.tx
                || step.server.tx == None
                || !Acks(s, step.server.tx.value, 0))
  {
    hide InitUploadBody, UploadSegmentBody, DownloadSegmentAckBody, AbortBody, InitDownloadAckBody, Specifier, Toggle,
      Expedited, SizeIndicated, ExpeditedLength, SegmentLength, FinalSegment, IndexOf, SizeOf, LastChunk, NodeOfRsdo,
      TsdoId, Acks, Fill;
    var d, t := f.data, v.transfer;
    var step := v.Handle(f, now, Keeper(store, refusal));
    KeeperReads(store, refusal, IndexOf(d), SubOf(d), v.room);
    var value :=
      if t.Uploading? then t.value
      else if (IndexOf(d), SubOf(d)) in store then store[(IndexOf(d), SubOf(d))] else [];
    var served := if t.Uploading? then t.served else 0;
    var toggle := t.Downloading? && Parity(t.count);
    var code := if step.aborted.Some? then step.aborted.value else General;
    AnswersThatDoNotAck(s, IndexOf(d), SubOf(d), value, served, toggle, code);
    AnswersThatDoNotAck(s, 0, 0, value, served, toggle, code);
    if t != Idle {
      AnswersThatDoNotAck(s, t.idx, t.sub, value, served, toggle, code);
    }
    if (IndexOf(d), SubOf(d)) in store {
      AnswersThatDoNotAck(s, IndexOf(d), SubOf(d), store[(IndexOf(d), SubOf(d))], 0, toggle, code);
    }
  }

  // ----- every run -----

  /** Nothing on its way to the server does harm, and either nothing on its way back could
      pass for the acknowledgement, or the payload is stored for good. */
  ghost predicate Unharmed(s: Session, room: nat, net: Net) {
    && net.server.node == s.node
    && net.server.room == room
    && (net.client.exchange == Rest || net.client.exchange == s.ClientAt(0))
    && AllClean(s, room, Pipe(net.up, net.client.tx))
    && (Settled(s, net.server, net.store)
        || (NoAck(s, Pipe(net.down, net.server.tx)) && !net.verdict.Done?))
  }

  lemma OwnFramesAreClean(s: Session, room: nat, code: AbortCode)
    requires s.Valid() && !s.upload && s.Short()
    ensures Clean(s, room, s.Req(0))
    ensures Clean(s, room, SdoFrame(RsdoId(s.node), AbortBody(s.idx, s.sub, code)))
  {
    hide Session.RequestBody, AbortBody, Specifier, Expedited, ExpeditedLength, IndexOf, SizeOf, NodeOfRsdo;
    DownloadRequestFields(s, 0);
    AbortBodyFields(s.idx, s.sub, code);
  }

  lemma PipeShrinks(q: seq<SdoFrame>, tx: Option<SdoFrame>, again: bool)
    requires q != []
    ensures forall i: nat :: i < |Pipe(Deliver(q, again), tx)| ==> Pipe(Deliver(q, again), tx)[i] in Pipe(q, tx)
    ensures Pipe(q, tx)[0] == q[0]
  {
  }

  lemma CleanSubset(s: Session, room: nat, q: seq<SdoFrame>, q': seq<SdoFrame>)
    requires forall i: nat :: i < |q'| ==> q'[i] in q
    ensures AllClean(s, room, q) ==> AllClean(s, room, q')
    ensures NoAck(s, q) ==> NoAck(s, q')
  {
    hide Clean, Acks;
  }

  lemma UnharmedByServer(s: Session, room: nat, net: Net, e: Event)
    requires s.Valid() && !s.upload && s.Short() && Unharmed(s, room, net) && e.ToServer? && net.up != []
    ensures Unharmed(s, room, Next(net, e))
  {
    hide Server.Handle, Clean, Acks, Keeper, Settled, Session.RequestBody, Session.ClientAt;
    PipeShrinks(net.up, net.client.tx, e.again);
    assert Clean(s, room, Pipe(net.up, net.client.tx)[0]);
    CleanSubset(s, room, Pipe(net.up, net.client.tx), Pipe(Deliver(net.up, e.again), net.client.tx));
    CleanRequest(s, net.server, net.up[0], e.now, net.store, e.refusal);
    var end := Next(net, e);
    if !Settled(s, end.server, end.store) {
      SlotChanges(s, net.down, net.server.tx, end.server.tx);
    }
  }

  lemma SlotChanges(s: Session, q: seq<SdoFrame>, tx: Option<SdoFrame>, tx': Option<SdoFrame>)
    requires tx' == tx || tx' == None || !Acks(s, tx'.value, 0)
    ensures NoAck(s, Pipe(q, tx)) ==> NoAck(s, Pipe(q, tx'))
  {
    hide Acks;
    assert forall i: nat :: i < |q| ==> Pipe(q, tx)[i] == q[i];
  }

  lemma UnharmedByClient(s: Session, room: nat, net: Net, e: Event)
    requires s.Valid() && !s.upload && s.Short() && Unharmed(s, room, net) && e.ToClient? && net.down != []
    ensures Unharmed(s, room, Next(net, e))
  {
    hide Client.Handle, Clean, Acks, Settled, Session.RequestBody, Take;
    var c, f := net.client, net.down[0];
    PipeShrinks(net.down, net.server.tx, e.again);
    CleanSubset(s, room, Pipe(net.down, net.server.tx), Pipe(Deliver(net.down, e.again), net.server.tx));
    assert NoAck(s, Pipe(net.down, net.server.tx)) ==> !Acks(s, Pipe(net.down, net.server.tx)[0], 0);
    LastRequest(s, 0);
    if c.exchange == Rest {
      ClientAtRest(c, f, e.now);
    } else {
      AcksMove(s, f, 0);
      TakeIsHandle(c, f, e.now);
      var c' := c.Handle(f, e.now).0;
      if c'.exchange != c.exchange {
        if c'.tx.Some? {
          var code :| c' == c.AbortWith(code);
          OwnFramesAreClean(s, room, code);
        }
        CleanSlot(s, room, net.up, c.tx, c'.tx);
      }
    }
  }

  lemma CleanSlot(s: Session, room: nat, q: seq<SdoFrame>, tx: Option<SdoFrame>, tx': Option<SdoFrame>)
    requires AllClean(s, room, Pipe(q, tx)) && (tx' == None || Clean(s, room, tx'.value))
    ensures AllClean(s, room, Pipe(q, tx'))
  {
    hide Clean;
    assert forall i: nat :: i < |q| ==> Pipe(q, tx)[i] == q[i];
  }

  lemma UnharmedOtherwise(s: Session, room: nat, net: Net, e: Event)
    requires s.Valid() && !s.upload && s.Short() && Unharmed(s, room, net)
    requires (e.ToServer? ==> net.up == []) && (e.ToClient? ==> net.down == [])
    ensures Unharmed(s, room, Next(net, e))
  {
    hide Server.Handle, Client.Handle, Clean, Acks, Session.RequestBody, AbortBody;
    var c, v, up, down := net.client, net.server, Pipe(net.up, net.client.tx), Pipe(net.down, net.server.tx);
    match e
    case LoseUp =>
      if net.up != [] {
        PipeShrinks(net.up, c.tx, false);
        CleanSubset(s, room, up, Pipe(Deliver(net.up, false), c.tx));
      }
    case LoseDown =>
      if net.down != [] {
        PipeShrinks(net.down, v.tx, false);
        CleanSubset(s, room, down, Pipe(Deliver(net.down, false), v.tx));
      }
    case ServerTimeout(now) =>
      var v' := v.HandleTimeout(now).0;
      if v'.tx != v.tx {
        AnswersThatDoNotAck(s, v.transfer.idx, v.transfer.sub, [], 0, false, ProtocolTimeout);
      }
      SlotChanges(s, net.down, v.tx, v'.tx);
    case ClientTimeout(now) =>
      if c.exchange != Rest {
        OwnFramesAreClean(s, room, ProtocolTimeout);
        CleanSlot(s, room, net.up, c.tx, c.AbortWith(ProtocolTimeout).tx);
      }
    case ClientQuits(code) =>
      if c.exchange != Rest {
        OwnFramesAreClean(s, room, code);
        CleanSlot(s, room, net.up, c.tx, c.AbortWith(code).tx);
      }
    case _ =>
  }

  lemma {:induction false} UnharmedThroughout(s: Session, room: nat, net: Net, events: seq<Event>)
    requires s.Valid() && !s.upload && s.Short() && Unharmed(s, room, net)
    ensures Unharmed(s, room, Play(net, events))
    decreases |events|
  {
    hide Next, Unharmed;
    if events != [] {
      var k := |events| - 1;
      UnharmedThroughout(s, room, net, events[..k]);
      var before, e := Play(net, events[..k]), events[k];
      if e.ToServer? && before.up != [] {
        UnharmedByServer(s, room, before, e);
      } else if e.ToClient? && before.down != [] {
        UnharmedByClient(s, room, before, e);
      } else {
        UnharmedOtherwise(s, room, before, e);
      }
    }
  }

  // ----- the theorem -----

  /** Every run that reports success leaves the payload at the object. */
  ghost predicate Kept(s: Session, end: Net) { end.verdict.Done? ==> Holds(s, end.store) }

  ghost predicate IsSafe(s: Session, start: Net) { forall events: seq<Event> :: Kept(s, Play(start, events)) }

  /** Everything on its way is harmless. */
  ghost predicate Harmless(s: Session, net: Net) {
    AllClean(s, net.server.room, net.up) && NoAck(s, Pipe(net.down, net.server.tx))
  }

  lemma {:induction false} LoseRequests(net: Net, k: nat) returns (events: seq<Event>)
    requires k <= |net.up|
    ensures Play(net, events) == net.(up := net.up[k..])
    decreases k
  {
    if k == 0 {
      events := [];
      assert Play(net, events) == net && net.up[0..] == net.up;
    } else {
      var front := LoseRequests(net, k - 1);
      events := front + [LoseUp];
      PlayJoins(net, front, [LoseUp]);
      PlayOne(Play(net, front), LoseUp);
      assert net.up[k - 1..][1..] == net.up[k..];
    }
  }

  /** An acknowledgement on its way back can be the first frame the client hears. */
  lemma AckIsBelieved(s: Session, net: Net, i: nat) returns (events: seq<Event>)
    requires s.Valid() && !s.upload && s.Short() && net.client.exchange == s.ClientAt(0) && net.verdict == Pending
    requires i < |Pipe(net.down, net.server.tx)| && Acks(s, Pipe(net.down, net.server.tx)[i], 0)
    ensures Play(net, events).verdict.Done? && Play(net, events).store == net.store
  {
    hide Client.Handle, Acks, Take, Session.ClientAt;
    var f := Pipe(net.down, net.server.tx)[i];
    var a := Next(net, ServerSends);
    assert a.down == Pipe(net.down, net.server.tx);
    var lose := LoseSome(a, i);
    var b := Play(a, lose);
    LastRequest(s, 0);
    AcksMove(s, f, 0);
    TakeIsHandle(b.client, f, 0);
    events := [ServerSends] + lose + [ToClient(false, 0)];
    PlayOne(net, ServerSends);
    PlayJoins(net, [ServerSends], lose);
    PlayJoins(net, [ServerSends] + lose, [ToClient(false, 0)]);
    PlayOne(b, ToClient(false, 0));
  }

  /** A request that is not clean is acknowledged, and the payload is not what it stores. */
  lemma UncleanIsAcknowledged(s: Session, v: Server, f: SdoFrame, store: Store)
    requires s.Valid() && !s.upload && v.node == s.node && !Clean(s, v.room, f)
    ensures var step := v.Handle(f, 0, Keeper(store, None));
            && step.server.tx == Some(SdoFrame(TsdoId(s.node), InitDownloadAckBody(s.idx, s.sub)))
            && if Expedited(f.data[0]) then !Holds(s, step.od.state) else step.od.state == store
  {
    hide InitDownloadAckBody, Specifier, Expedited, SizeIndicated, ExpeditedLength, IndexOf, SizeOf, NodeOfRsdo, TsdoId;
  }

  lemma UncleanIsBelieved(s: Session, net: Net, i: nat) returns (events: seq<Event>)
    requires s.Valid() && !s.upload && s.Short() && net.client.exchange == s.ClientAt(0) && net.verdict == Pending
    requires net.server.node == s.node && i < |net.up| && !Clean(s, net.server.room, net.up[i])
    ensures var end := Play(net, events);
            && end.verdict.Done?
            && if Expedited(net.up[i].data[0]) then !Holds(s, end.store) else end.store == net.store
  {
    hide Server.Handle, Clean, Acks, Keeper, Session.ClientAt, Holds, InitDownloadAckBody, Expedited;
    var lose := LoseRequests(net, i);
    var a := Play(net, lose);
    var b := Next(a, ToServer(false, 0, None));
    UncleanIsAcknowledged(s, net.server, net.up[i], net.store);
    KeeperReads(net.store, None, s.idx, s.sub, 0);
    AnswersThatDoNotAck(s, s.idx, s.sub, [], 0, false, General);
    var ack := AckIsBelieved(s, b, |b.down|);
    events := lose + [ToServer(false, 0, None)] + ack;
    PlayJoins(net, lose, [ToServer(false, 0, None)]);
    PlayOne(a, ToServer(false, 0, None));
    PlayJoins(net, lose + [ToServer(false, 0, None)], ack);
  }

  /** Whatever is on the bus and whatever the server was doing: a short write of a value the
      object does not hold is safe if and only if everything on the bus is harmless. One of a
      value it holds is safe if every request is clean and no download of the object is open;
      and an old write of another value still on its way is never harmless. */
  lemma ShortWriteOverAnyBus(net: Net, node: Byte, idx: U16, sub: Byte, data: seq<Byte>, now: nat)
    requires ValidNode(node) && net.client.exchange == Rest && net.verdict == Pending && net.server.node == node
    requires 1 <= |data| <= 4
    ensures var s := Session(node, idx, sub, false, data);
            var start := net.(client := net.client.BeginDownload(node, idx, sub, data, now).0);
            && (!Holds(s, net.store) ==> (IsSafe(s, start) <==> Harmless(s, net)))
            && (Settled(s, net.server, net.store) && AllClean(s, net.server.room, net.up) ==> IsSafe(s, start))
            && ((exists i: nat :: i < |net.up| && !Clean(s, net.server.room, net.up[i]) && Expedited(net.up[i].data[0]))
                ==> !IsSafe(s, start))
  {
    hide Clean, Acks, Play, Settled, Holds, Expedited;
    var s := Session(node, idx, sub, false, data);
    var start := net.(client := net.client.BeginDownload(node, idx, sub, data, now).0);
    OwnFramesAreClean(s, net.server.room, General);
    assert start.client.tx == Some(s.Req(0));
    if && AllClean(s, net.server.room, net.up)
       && (NoAck(s, Pipe(net.down, net.server.tx)) || Settled(s, net.server, net.store))
    {
      CleanSlot(s, net.server.room, net.up, None, start.client.tx);
      forall events: seq<Event>
        ensures Kept(s, Play(start, events))
      {
        UnharmedThroughout(s, net.server.room, start, events);
        SettledHolds(s, Play(start, events));
      }
    }
    forall i: nat | i < |net.up| && !Clean(s, net.server.room, net.up[i])
      ensures (Expedited(net.up[i].data[0]) || !Holds(s, net.store)) ==> !IsSafe(s, start)
    {
      var events := UncleanIsBelieved(s, start, i);
      assert Kept(s, Play(start, events)) ==> Holds(s, Play(start, events).store);
    }
    forall i: nat | i < |Pipe(net.down, net.server.tx)| && Acks(s, Pipe(net.down, net.server.tx)[i], 0)
      ensures !Holds(s, net.store) ==> !IsSafe(s, start)
    {
      var events := AckIsBelieved(s, start, i);
      assert Kept(s, Play(start, events)) ==> Holds(s, Play(start, events).store);
    }
  }

  lemma SettledHolds(s: Session, net: Net)
    ensures Settled(s, net.server, net.store) ==> Holds(s, net.store)
  {
  }
}
