/** Exact ledgers between the counters, the session table and what was sent, over every run. */
module Ledgers {
  import opened Types
  import opened Sessions
  import opened Pool
  import opened Statistics
  import opened Routing
  import opened Delivery
  import opened Fairness

  /** How many events of the run satisfied `p` in the state they met. */
  function Occurrences(r: Run, p: (ProxyState, Event) -> bool): nat {
    match r
    case Start(_, _) => 0
    case Then(before, e) => Occurrences(before, p) + if p(After(before), e) then 1 else 0
  }

  // Sends to UPFs

  predicate IsSmfEvent(e: Event) {
    e.Receive? && IsSmfRequest(e.msg.msgType)
  }

  predicate IsBroadcastEvent(e: Event) {
    IsSmfEvent(e) && RouteOf(e.msg.msgType) == ToEveryUpf
  }

  function DeliveredTo(sends: seq<Send>, upf: SocketAddr): nat {
    if sends == [] then 0 else
    DeliveredTo(sends[..|sends| - 1], upf) + if sends[|sends| - 1] == Send(upf, true) then 1 else 0
  }

  /** The sends of SMF requests that failed. */
  function FailedToUpfs(r: Run): nat {
    match r
    case Start(_, _) => 0
    case Then(before, e) =>
      DeliveredBound(SendsOf(r));
      FailedToUpfs(before) + if IsSmfEvent(e) then |SendsOf(r)| - Delivered(SendsOf(r)) else 0
  }

  /** The pool sizes met by the broadcasts, added up. */
  function BroadcastFanOut(r: Run): nat {
    match r
    case Start(_, _) => 0
    case Then(before, e) => BroadcastFanOut(before) + if IsBroadcastEvent(e) then PoolSize(before) else 0
  }

  /** The successful sends of SMF requests to one UPF. */
  function SentTo(r: Run, upf: SocketAddr): nat {
    match r
    case Start(_, _) => 0
    case Then(before, e) => SentTo(before, upf) + if IsSmfEvent(e) then DeliveredTo(SendsOf(r), upf) else 0
  }

  lemma {:induction false} CountSentPerUpf(stats: Counters, sends: seq<Send>, upf: SocketAddr)
    ensures CountOf(CountSent(stats, sends).perUpf, upf) == CountOf(stats.perUpf, upf) + DeliveredTo(sends, upf)
    ensures Total(CountSent(stats, sends).perUpf) == Total(stats.perUpf) + Delivered(sends)
  {
    if sends != [] {
      var front := sends[..|sends| - 1];
      CountSentPerUpf(stats, front, upf);
      TotalAfterBump(CountSent(stats, front).perUpf, sends[|sends| - 1].to);
    }
  }

  lemma RouteCounters(s: ProxyState, m: Message)
    requires IsSmfRequest(m.msgType)
    ensures var before, after := s.stats, RouteMessage(s, m).state.stats;
      && after.sent == before.sent && after.perUpf == before.perUpf
      && after.bySeid + after.byLoadBalance
         == before.bySeid + before.byLoadBalance + (if RouteOf(m.msgType) == ToEveryUpf then 0 else |Targets(s, m)|)
      && after.broadcasts == before.broadcasts + if RouteOf(m.msgType) == ToEveryUpf then 1 else 0
  {
    SmfRequestsAreRoutable(m.msgType);
    hide Select, RouteOf, IsSmfRequest;
  }

  lemma SendCountersAfterStep(s: ProxyState, e: Event, upf: SocketAddr)
    ensures var before, out := s.stats, Step(s, e);
      var after := out.state.stats;
      && after.sent == before.sent + (if IsSmfEvent(e) then Delivered(out.sends) else 0)
      && CountOf(after.perUpf, upf)
         == CountOf(before.perUpf, upf) + (if IsSmfEvent(e) then DeliveredTo(out.sends, upf) else 0)
      && Total(after.perUpf) == Total(before.perUpf) + (if IsSmfEvent(e) then Delivered(out.sends) else 0)
      && after.bySeid + after.byLoadBalance == before.bySeid + before.byLoadBalance
         + (if IsSmfEvent(e) && !IsBroadcastEvent(e) then |out.sends| else 0)
      && after.broadcasts == before.broadcasts + (if IsBroadcastEvent(e) then 1 else 0)
      && (IsBroadcastEvent(e) ==> |out.sends| == |s.pool.backends|)
  {
    if IsSmfEvent(e) {
      hide Select, RouteMessage;
      var s1 := s.(stats := s.stats.MessageReceived(e.msg.msgType));
      SmfRequestEffects(s, e.msg, e.failed);
      RouteCounters(s1, e.msg);
      assert Balanced(s1) == Balanced(s);
      var routed := RouteMessage(s1, e.msg).state.stats;
      CountSentTouchesOnlySends(routed, Step(s, e).sends);
      CountSentPerUpf(routed, Step(s, e).sends, upf);
    }
  }

  /**
   * Send ledger: the sends to UPFs, successful and failed, are one per request routed by SEID or balanced, and one
   * per pool member for each broadcast; the per-UPF counts are the successful sends to each UPF and add up to the
   * total.
   */
  lemma {:induction false} SendLedger(r: Run, upf: SocketAddr)
    ensures var stats := After(r).stats;
      && stats.sent + FailedToUpfs(r) == stats.bySeid + stats.byLoadBalance + BroadcastFanOut(r)
      && Total(stats.perUpf) == stats.sent
      && CountOf(stats.perUpf, upf) == SentTo(r, upf)
  {
    hide Step;
    if r.Then? {
      SendLedger(r.before, upf);
      SendCountersAfterStep(After(r.before), r.event, upf);
      DeliveredBound(SendsOf(r));
    }
  }

  /** With a pool of fixed size B each broadcast accounts for exactly B sends. */
  lemma {:induction false} FixedPoolFanOut(r: Run, size: nat)
    requires FixedPoolSize(r, size)
    ensures BroadcastFanOut(r) == size * After(r).stats.broadcasts
  {
    hide Step;
    if r.Then? {
      FixedPoolFanOut(r.before, size);
      SendCountersAfterStep(After(r.before), r.event, SocketAddr(0, 0));
      var n := After(r.before).stats.broadcasts;
      assert size * (n + 1) == size * n + size;
    }
  }

  // Messages received and responses

  predicate IsReceived(s: ProxyState, e: Event) {
    e.Receive?
  }

  predicate IsResponseEvent(s: ProxyState, e: Event) {
    e.Receive? && !IsRequest(e.msg.msgType)
  }

  /** A response whose entry is pending but whose send fails. */
  predicate FailsToForward(s: ProxyState, e: Event) {
    IsResponseEvent(s, e) && e.msg.sequence in s.pending && 0 in e.failed
  }

  lemma RoutingLeavesMessageCounters(s: ProxyState, m: Message)
    ensures var before, after := s.stats, RouteMessage(s, m).state.stats;
      && after.received == before.received && after.perType == before.perType
      && after.forwarded == before.forwarded && after.dropped == before.dropped
  {
    hide Balanced, RouteOf;
    match RouteOf(m.msgType)
    case NewSession => hide RouteByAffinity, RouteFallThrough;
    case ByAffinity => hide RouteNewSession, RouteFallThrough;
    case ByAffinityOrBalanced => hide RouteNewSession, RouteByAffinity;
    case _ => hide RouteNewSession, RouteByAffinity, RouteFallThrough;
  }

  lemma MessageCountersAfterStep(s: ProxyState, e: Event)
    ensures var before, after := s.stats, Step(s, e).state.stats;
      && after.received == before.received + (if e.Receive? then 1 else 0)
      && Total(after.perType) == Total(before.perType) + (if e.Receive? then 1 else 0)
      && after.forwarded + after.dropped + (if FailsToForward(s, e) then 1 else 0)
         == before.forwarded + before.dropped + (if IsResponseEvent(s, e) then 1 else 0)
      && after.dropped == before.dropped + (if IsResponseEvent(s, e) && e.msg.sequence !in s.pending then 1 else 0)
  {
    if e.Receive? {
      TotalAfterBump(s.stats.perType, e.msg.msgType);
      if IsSmfEvent(e) {
        hide Step, Select, RouteMessage, RouteOf;
        var s1 := s.(stats := s.stats.MessageReceived(e.msg.msgType));
        SmfRequestEffects(s, e.msg, e.failed);
        RoutingLeavesMessageCounters(s1, e.msg);
        CountSentTouchesOnlySends(RouteMessage(s1, e.msg).state.stats, Step(s, e).sends);
      }
    }
  }

  /** Response ledger: every response received was forwarded, dropped for want of an entry, or failed to be sent. */
  lemma {:induction false} ResponseLedger(r: Run)
    ensures var stats := After(r).stats;
      && stats.received == Occurrences(r, IsReceived) == Total(stats.perType)
      && stats.forwarded + stats.dropped + Occurrences(r, FailsToForward) == Occurrences(r, IsResponseEvent)
  {
    hide Step;
    if r.Then? {
      ResponseLedger(r.before);
      MessageCountersAfterStep(After(r.before), r.event);
    }
  }

  /** The messages of one type received so far. */
  function ReceivedOf(r: Run, t: MsgType): nat {
    match r
    case Start(_, _) => 0
    case Then(before, e) => ReceivedOf(before, t) + if e.Receive? && e.msg.msgType == t then 1 else 0
  }

  lemma PerTypeAfterStep(s: ProxyState, e: Event)
    requires e.Receive?
    ensures Step(s, e).state.stats.perType == Bump(s.stats.perType, e.msg.msgType)
  {
    if IsSmfEvent(e) {
      hide Step, Select, RouteMessage, RouteOf;
      var s1 := s.(stats := s.stats.MessageReceived(e.msg.msgType));
      SmfRequestEffects(s, e.msg, e.failed);
      RoutingLeavesMessageCounters(s1, e.msg);
      CountSentTouchesOnlySends(RouteMessage(s1, e.msg).state.stats, Step(s, e).sends);
    } else if IsUpfRequest(e.msg.msgType) {
      hide Select, HandleSmfRequest, HandleResponse, Bump, Track, Attempts;
    } else {
      hide Select, HandleSmfRequest, HandleUpfRequest, Bump, Attempts;
    }
  }

  lemma OtherEventsKeepCounters(s: ProxyState, e: Event)
    requires !e.Receive?
    ensures Step(s, e).state.stats == s.stats
  {
  }

  /** In every run the count of each message type is the number of messages of that type received. */
  lemma {:induction false} PerTypeLedger(r: Run, t: MsgType)
    ensures CountOf(After(r).stats.perType, t) == ReceivedOf(r, t)
  {
    hide Step;
    if r.Then? {
      PerTypeLedger(r.before, t);
      if r.event.Receive? {
        PerTypeAfterStep(After(r.before), r.event);
      } else {
        OtherEventsKeepCounters(After(r.before), r.event);
      }
    }
  }

  /**
   * What a snapshot reports in any run: for each pool member, in pool order, its address and health, the requests it
   * was sent, and the sessions bound to it; and the counters and the number of sessions as they are.
   */
  lemma SnapshotReportsTheRun(r: Run, i: nat)
    requires i < |After(r).pool.backends|
    ensures var s := After(r);
      var snap, backend := SnapshotOf(s.stats, s.table, s.pool.backends), s.pool.backends[i];
      && snap.counters == s.stats && snap.activeSessions == |s.table|
      && |snap.upfStats| == |s.pool.backends|
      && snap.upfStats[i].address == backend.addr && snap.upfStats[i].health == backend.health
      && snap.upfStats[i].messagesSent == SentTo(r, backend.addr)
      && snap.upfStats[i].activeSessions == |set seid | seid in s.table && s.table[seid].upf == backend.addr|
  {
    hide Step;
    var s := After(r);
    SendLedger(r, s.pool.backends[i].addr);
    assert BoundTo(s.table, s.pool.backends[i].addr)
        == set seid | seid in s.table && s.table[seid].upf == s.pool.backends[i].addr;
  }

  // Sessions

  predicate Establishes(s: ProxyState, e: Event) {
    Choice(s, e).Some? && RouteOf(e.msg.msgType) == NewSession
  }

  predicate EstablishesWithSeid(s: ProxyState, e: Event) {
    Establishes(s, e) && e.msg.seid.Some?
  }

  predicate EstablishesWithoutSeid(s: ProxyState, e: Event) {
    Establishes(s, e) && e.msg.seid == None
  }

  /** An establishment whose SEID is still bound. */
  predicate Rebinds(s: ProxyState, e: Event) {
    EstablishesWithSeid(s, e) && e.msg.seid.value in s.table
  }

  /** A fall-through request that binds its SEID. */
  predicate FallsThroughAndBinds(s: ProxyState, e: Event) {
    Choice(s, e).Some? && RouteOf(e.msg.msgType) == ByAffinityOrBalanced && e.msg.seid.Some?
  }

  /** How one step moves the sessions and their counters. */
  lemma SessionCountersAfterStep(s: ProxyState, e: Event)
    ensures var out := Step(s, e).state;
      && |out.table| + out.stats.deleted + (if Rebinds(s, e) then 1 else 0)
         == |s.table| + s.stats.deleted + (if EstablishesWithSeid(s, e) || FallsThroughAndBinds(s, e) then 1 else 0)
      && out.stats.established == s.stats.established + (if Establishes(s, e) then 1 else 0)
      && out.stats.byLoadBalance == s.stats.byLoadBalance + (if Choice(s, e).Some? then 1 else 0)
  {
    LoadBalancedCount(s, e);
    EstablishedCount(s, e);
    assert Unbinds(s, e) ==> !Balances(s, e);
    hide Step, Select, RouteOf, IsSmfRequest;
    TableAfterStep(s, e);
    if Choice(s, e).Some? && e.msg.seid.Some? {
      TableSizeAfterInsert(s.table, e.msg.seid.value, SessionInfo(Choice(s, e).value, e.msg.src));
    } else if Unbinds(s, e) {
      TableSizeAfterRemove(s.table, e.msg.seid.value);
    }
  }

  lemma EstablishedCount(s: ProxyState, e: Event)
    ensures Step(s, e).state.stats.established == s.stats.established + if Establishes(s, e) then 1 else 0
  {
    if IsSmfEvent(e) {
      hide Select, RouteOf;
      var s1 := s.(stats := s.stats.MessageReceived(e.msg.msgType));
      SmfRequestEffects(s, e.msg, e.failed);
      assert Balanced(s1) == Balanced(s);
      CountSentTouchesOnlySends(RouteMessage(s1, e.msg).state.stats, Step(s, e).sends);
    }
  }

  lemma TableSizeAfterInsert(table: Table, seid: Seid, info: SessionInfo)
    ensures |table[seid := info]| == |table| + if seid in table then 0 else 1
  {
    assert table[seid := info].Keys == table.Keys + {seid};
    assert |table[seid := info]| == |table[seid := info].Keys|;
  }

  lemma TableSizeAfterRemove(table: Table, seid: Seid)
    ensures |table - {seid}| == |table| - if seid in table then 1 else 0
  {
    assert (table - {seid}).Keys == table.Keys - {seid};
    assert |table - {seid}| == |(table - {seid}).Keys|;
  }

  /**
   * Session ledger: the live sessions, the deletions and the re-bindings together are the establishments with a SEID
   * and the fall-through insertions; so live and deleted sessions never outnumber the balanced requests, and the live
   * sessions are established minus deleted exactly when re-bindings and establishments without a SEID are offset by
   * fall-through insertions.
   */
  lemma {:induction false} SessionLedger(r: Run)
    ensures var live, stats := |After(r).table|, After(r).stats;
      && live + stats.deleted + Occurrences(r, Rebinds)
         == Occurrences(r, EstablishesWithSeid) + Occurrences(r, FallsThroughAndBinds)
      && stats.established == Occurrences(r, EstablishesWithSeid) + Occurrences(r, EstablishesWithoutSeid)
      && Occurrences(r, EstablishesWithSeid) + Occurrences(r, FallsThroughAndBinds) <= stats.byLoadBalance
      && live + stats.deleted <= stats.byLoadBalance
      && (live == stats.established - stats.deleted
          <==> Occurrences(r, Rebinds) + Occurrences(r, EstablishesWithoutSeid)
               == Occurrences(r, FallsThroughAndBinds))
  {
    hide Step, Select;
    if r.Then? {
      SessionLedger(r.before);
      SessionCountersAfterStep(After(r.before), r.event);
    }
  }

  /** One establishment without a SEID is counted as established and leaves no session. */
  lemma EstablishedIsNotActive(upf: SocketAddr, m: Message)
    requires m.msgType == SessionEstablishmentRequest && m.seid == None
    ensures var r := Then(Start([upf], RoundRobin), Receive(m, {}));
      && After(r).stats.established == 1 && After(r).stats.deleted == 0
      && |After(r).table| == 0
      && Occurrences(r, EstablishesWithoutSeid) == 1 && Occurrences(r, FallsThroughAndBinds) == 0
  {
    var start, e := Start([upf], RoundRobin), Receive(m, {});
    OnlyBackendIsPicked(upf, e);
    hide Step, Select;
    EstablishedCount(After(start), e);
    TableAfterStep(After(start), e);
    assert Occurrences(start, EstablishesWithoutSeid) == 0 && Occurrences(start, FallsThroughAndBinds) == 0;
  }
}
