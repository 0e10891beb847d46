/** Left alone, the interleaved tasks do to the pending tracker what the handlers do in one step. */
module UndisturbedTasks {
  import opened Types
  import opened Pending
  import opened Pool
  import opened Routing
  import opened Delivery
  import B = ConcurrentBalance
  import C = ConcurrentExchange

  /** The entry of `q` as this module keeps it, without the time of its insertion. */
  function TrackedEntry(pending: Requests, q: SeqNo): Option<RequestInfo> {
    if q in pending then Some(pending[q].(timestamp := 0)) else None
  }

  /** The sends of a request task that nothing interrupts. */
  function SendingAll(x: C.Exchange, failed: set<nat>, n: nat): (end: C.Exchange)
    requires x.phase == C.Sending && x.attempted == 0 && n <= x.copies
    ensures end == x.(attempted := n, reached := end.reached)
  {
    if n == 0 then x else
    C.Stepped(0, SendingAll(x, failed, n - 1), None, C.SendCopy(n - 1 !in failed))
  }

  lemma {:induction false} SendingAllReaches(x: C.Exchange, to: seq<SocketAddr>, failed: set<nat>, n: nat)
    requires x.phase == C.Sending && x.attempted == 0 && x.reached == {} && n <= |to| == x.copies
    ensures SendingAll(x, failed, n).reached == {} <==> Delivered(Attempts(to[..n], failed)) == 0
  {
    if n > 0 {
      SendingAllReaches(x, to, failed, n - 1);
      assert Attempts(to[..n], failed)[..n - 1] == Attempts(to[..n - 1], failed);
    }
  }

  /** A request task that runs without interruption leaves the entry that handling the request in one step does. */
  lemma UndisturbedRequestIsHandled(s: ProxyState, m: Message, failed: set<nat>)
    requires IsSmfRequest(m.msgType) && Targets(s, m) != []
    ensures var accepted := C.NewExchange(m.src, RouteOf(m.msgType) == ToEveryUpf, |s.pool.backends|);
      var entry := C.EntryAfter(accepted, None, C.InsertPending);
      var inserted := C.Stepped(|s.pool.backends|, accepted, None, C.InsertPending);
      var end := SendingAll(inserted, failed, inserted.copies);
      && |Targets(s, m)| == accepted.copies
      && C.Enabled(end, C.FinishRequest)
      && C.EntryAfter(end, entry, C.FinishRequest)
         == TrackedEntry(Step(s, Receive(m, failed)).state.pending, m.sequence)
  {
    var to := Targets(s, m);
    var accepted := C.NewExchange(m.src, RouteOf(m.msgType) == ToEveryUpf, |s.pool.backends|);
    SmfRequestEffects(s, m, failed);
    RequestPending(s, Receive(m, failed));
    SmfRequestsAreRoutable(m.msgType);
    hide Step, Select, RouteOf, IsSmfRequest;
    SendingAllReaches(C.Stepped(|s.pool.backends|, accepted, None, C.InsertPending), to, failed, |to|);
    assert to[..|to|] == to;
  }

  /** The steps of one response task after its lookup, up to its removal test. */
  function ForwardAndRead(size: nat, looked: C.Exchange, j: nat): C.Exchange
    requires j in looked.answers && looked.answers[j].Holding?
  {
    C.Stepped(size, C.Stepped(size, looked, None, C.Forward(j, true)), None, C.ReadPoolSize(j))
  }

  /** A response task that runs without interruption moves the entry as handling the response in one step does. */
  lemma UndisturbedResponseIsHandled(s: ProxyState, m: Message, failed: set<nat>, x: C.Exchange, j: nat)
    requires !IsRequest(m.msgType) && C.Enabled(x, C.LookUp(j))
    ensures var size, entry := |s.pool.backends|, TrackedEntry(s.pending, m.sequence);
      var counted, looked := C.EntryAfter(x, entry, C.LookUp(j)), C.Stepped(size, x, entry, C.LookUp(j));
      var out := Step(s, Receive(m, failed));
      if entry == None then looked.answers[j] == C.Dropped && out.sends == [] else
      && looked.answers[j].Holding?
      && out.sends == [Send(looked.answers[j].origin, 0 !in failed)]
      && TrackedEntry(out.state.pending, m.sequence)
         == if 0 in failed then counted
            else C.EntryAfter(ForwardAndRead(size, looked, j), counted, C.MaybeRemove(j))
  {
    ResponsePending(s, Receive(m, failed));
    hide Step;
  }

  /**
   * An establishment task under least-sessions that nothing interrupts leaves the session table that handling the
   * establishment in one step does.
   */
  lemma UndisturbedEstablishmentIsHandled(s: ProxyState, m: Message, failed: set<nat>, id: nat, k: nat)
    requires s.pool.strategy == LeastSessions && m.msgType == SessionEstablishmentRequest
    requires m.seid.Some? && m.seid.value !in s.table && Select(s.pool, s.table).choice.Some? && 0 < k
    ensures var addrs, idle := AddrsOf(HealthyOf(s.pool.backends)), B.System(s.table, map[]);
      && B.Enabled(addrs, k, idle, B.Begin(id, m.seid.value, m.src))
      && var scanned := B.ReadAll(addrs, k, B.Apply(addrs, k, idle, B.Begin(id, m.seid.value, m.src)), id, |addrs|);
      && B.Enabled(addrs, k, scanned, B.Insert(id))
      && B.Apply(addrs, k, scanned, B.Insert(id)) == B.System(Step(s, Receive(m, failed)).state.table, map[])
  {
    MessageClasses(m.msgType);
    B.LoneTaskBindsSelection(HealthyOf(s.pool.backends), k, s.table, id, m.seid.value, m.src);
    hide Step, IsSmfRequest, RouteOf;
    TableAfterStep(s, Receive(m, failed));
  }
}
