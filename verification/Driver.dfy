/** The driver of the loopback tests: it pumps frames between a client object and a server
    object until the client has a result. */
module Driver {
  import opened Wire
  import opened ClientSpec
  import opened ServerSpec
  import opened L = Loopback
  import C = Client
  import V = Server

  /** Once the client has nothing to send, nothing happens any more. */
  lemma {:induction false} Stalled<S>(p: Pair, od: Dictionary<S>, clock: nat -> nat, k: nat, n: nat)
    requires k <= n && After(p, od, Untouched(), clock, k).pair.client.tx.None?
    ensures After(p, od, Untouched(), clock, n) == After(p, od, Untouched(), clock, k)
    decreases n
  {
    hide L.Exchange;
    if k < n {
      Stalled(p, od, clock, k, n - 1);
    }
  }

  /** Every exchange before the last finds a request waiting, and the last gives the result
      of the direct call. */
  lemma EveryExchangeCounts<S>(p: Pair, od: Dictionary<S>, node: Byte, op: Op, clock: nat -> nat, k: nat)
    requires Quiescent(p, node) && Begin(p, node, op, clock(0)).1.None? && k < Cost(od, op, p.server.room)
    ensures var e := After(Begin(p, node, op, clock(0)).0, od, Untouched(), clock, k);
            e.result == Pending && e.pair.client.tx.Some?
  {
    hide L.Exchange, Direct, Cost, After, Quiescent;
    var b, n := Begin(p, node, op, clock(0)).0, Cost(od, op, p.server.room);
    var e := After(b, od, Untouched(), clock, k);
    PendingBefore(p, od, node, op, clock, k);
    DirectEnds(od, op, p.server.room);
    PerformIsDirect(p, od, node, op, clock);
    if e.pair.client.tx.None? {
      Stalled(b, od, clock, k, n);
    }
  }

  lemma PendingBefore<S>(p: Pair, od: Dictionary<S>, node: Byte, op: Op, clock: nat -> nat, k: nat)
    requires Quiescent(p, node) && Begin(p, node, op, clock(0)).1.None? && k < Cost(od, op, p.server.room)
    ensures After(Begin(p, node, op, clock(0)).0, od, Untouched(), clock, k).result == Pending
  {
    hide L.Exchange, Direct, After, Drift, Finished;
    if op.Get? {
      UploadIsASnapshot(p, od, Untouched(), clock, node, op, clock(0));
    } else {
      DownloadIsOneWrite(p, od, Untouched(), clock, node, op, clock(0));
    }
  }

  lemma DirectEnds<S>(od: Dictionary<S>, op: Op, room: nat)
    ensures Direct(od, op, room).1 != Pending
  {
  }

  lemma AfterStep<S>(p: Pair, od: Dictionary<S>, clock: nat -> nat, n: nat)
    requires var e := After(p, od, Untouched(), clock, n); e.result == Pending && e.pair.client.tx.Some?
    ensures var e := After(p, od, Untouched(), clock, n);
            After(p, od, Untouched(), clock, n + 1) == L.Exchange(e.pair, e.od, clock(n))
  {
    hide L.Exchange;
  }

  lemma AfterNothing<S>(p: Pair, od: Dictionary<S>, clock: nat -> nat)
    ensures After(p, od, Untouched(), clock, 0) == Run(p, od, Pending)
  {
  }

  /** Only an empty write is refused at once. */
  lemma RefusedCostsNothing<S>(p: Pair, od: Dictionary<S>, node: Byte, op: Op, now: nat)
    requires Quiescent(p, node) && Begin(p, node, op, now).1.Some?
    ensures Cost(od, op, p.server.room) == 0
  {
  }

  method Start(client: C.SdoClient, node: Byte, op: Op, now: nat) returns (error: Option<Error>)
    requires client.Valid()
    modifies client
    ensures client.Valid()
    ensures forall v :: (Pair(client.View(), v), error) == Begin(Pair(old(client.View()), v), node, op, now)
  {
    match op
    case Get(idx, sub) => error := client.BeginUpload(node, idx, sub, now);
    case Put(idx, sub, data) => error := client.BeginDownload(node, idx, sub, data, now);
  }

  /** Carries the waiting request to the server and the response, if any, back. */
  method Pump<S>(client: C.SdoClient, server: V.SdoServer, od: Dictionary<S>, now: nat)
    returns (result: Result, od': Dictionary<S>)
    requires client.Valid() && server.Valid() && client.View().tx.Some?
    modifies client, server, server.Buffers()
    ensures client.Valid() && server.Valid() && fresh(server.Buffers() - old(server.Buffers()))
    ensures Run(Pair(client.View(), server.View()), od', result) ==
      L.Exchange(Pair(old(client.View()), old(server.View())), od, now)
  {
    hide C.SdoClient.View, V.SdoServer.View, Server.Handle, Client.Handle, C.SdoClient.Valid,
      V.SdoServer.Valid;
    var request := client.PollTransmit();
    var aborted;
    od', aborted := server.HandleFrame(request.value, now, od);
    var response := server.PollTransmit();
    result := Pending;
    if response.Some? {
      result := client.HandleFrame(response.value, now);
    }
  }

  /** Iterations the test driver allows itself; an exchange takes two. */
  const PATIENCE: nat := 10_000

  /** Runs one transfer over the two objects for at most `limit` frames. It ends, by the
      exact number of exchanges, in the result and the dictionary of the direct call, with
      both objects at rest, if and only if two frames for each exchange are allowed; it
      never finds both slots empty. */
  method Drive<S>(client: C.SdoClient, server: V.SdoServer, od: Dictionary<S>, node: Byte, op: Op, clock: nat -> nat,
                  limit: nat)
    returns (result: Result, od': Dictionary<S>, exchanges: nat)
    requires client.Valid() && server.Valid() && Quiescent(Pair(client.View(), server.View()), node)
    modifies client, server, server.Buffers()
    ensures client.Valid() && server.Valid()
    ensures result != Pending <==> 2 * Cost(od, op, old(server.View().room)) <= limit
    ensures result == Pending ==> exchanges == limit / 2
    ensures result != Pending ==>
      && Quiescent(Pair(client.View(), server.View()), node)
      && (od', result) == Direct(od, op, old(server.View().room))
      && exchanges == Cost(od, op, old(server.View().room))
  {
    hide L.Exchange, Direct, Cost, After, Quiescent, C.SdoClient.Valid, V.SdoServer.Valid, C.SdoClient.View,
      V.SdoServer.View;
    ghost var p := Pair(client.View(), server.View());
    ghost var b := Begin(p, node, op, clock(0)).0;
    ghost var cost := Cost(od, op, p.server.room);
    od', exchanges, result := od, 0, Pending;
    PerformIsDirect(p, od, node, op, clock);
    DirectEnds(od, op, p.server.room);
    var error := Start(client, node, op, clock(0));
    assert Pair(client.View(), server.View()) == b;
    AfterNothing(b, od, clock);
    if error.Some? {
      RefusedCostsNothing(p, od, node, op, clock(0));
      result := Failed(error.value);
      return;
    }
    while result == Pending && 2 * exchanges + 2 <= limit
      invariant client.Valid() && server.Valid() && fresh(server.Buffers() - old(server.Buffers()))
      invariant exchanges <= cost && 2 * exchanges <= limit
      invariant Run(Pair(client.View(), server.View()), od', result) == After(b, od, Untouched(), clock, exchanges)
      decreases cost - exchanges
    {
      EveryExchangeCounts(p, od, node, op, clock, exchanges);
      AfterStep(b, od, clock, exchanges);
      result, od' := Pump(client, server, od', clock(exchanges));
      exchanges := exchanges + 1;
    }
    if exchanges < cost {
      PendingBefore(p, od, node, op, clock, exchanges);
    }
  }

  /** With the patience of the tests: payloads and values of up to 34993 bytes always get
      through, and longer ones that fit the server never do. */
  lemma PatienceIsEnoughFor(len: nat)
    ensures 2 * Exchanges(len) <= PATIENCE <==> len <= 34_993
  {
  }
}
