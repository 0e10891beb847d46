/**
 * The proxy as a state machine: one message, cleanup tick or pool change is one step. The handlers of the `Proxy`
 * class are proved to perform exactly these steps; the laws over whole runs are proved about them.
 */
module Routing {
  import opened Types
  import opened Sessions
  import opened Pending
  import opened Pool
  import opened Statistics

  datatype ProxyState = ProxyState(
    pool: PoolState,
    table: Table,
    pending: Requests,
    stats: Counters,
    clock: nat)

  datatype Routed = Routed(state: ProxyState, decision: RoutingDecision)

  datatype Outcome = Outcome(state: ProxyState, sends: seq<Send>)

  const CLEANUP_MAX_AGE: nat := 60

  // Message classification

  predicate IsSmfRequest(t: MsgType) {
    match t
    case HeartbeatRequest | AssociationSetupRequest | AssociationUpdateRequest | AssociationReleaseRequest => true
    case PfdManagementRequest | NodeReportRequest | SessionEstablishmentRequest => true
    case SessionModificationRequest | SessionDeletionRequest => true
    case SessionSetDeletionRequest | SessionSetModificationRequest => true
    case _ => false
  }

  predicate IsUpfRequest(t: MsgType) {
    t == SessionReportRequest
  }

  /** The five groups of message types the router distinguishes. */
  datatype Route = ToEveryUpf | NewSession | ByAffinity | IsResponse | ByAffinityOrBalanced

  function RouteOf(t: MsgType): Route {
    match t
    case HeartbeatRequest => ToEveryUpf
    case AssociationSetupRequest | AssociationUpdateRequest | PfdManagementRequest => ToEveryUpf
    case SessionEstablishmentRequest => NewSession
    case SessionModificationRequest | SessionDeletionRequest => ByAffinity
    case HeartbeatResponse | SessionEstablishmentResponse | SessionModificationResponse => IsResponse
    case SessionDeletionResponse | SessionReportResponse | AssociationSetupResponse => IsResponse
    case AssociationUpdateResponse | AssociationReleaseResponse | PfdManagementResponse => IsResponse
    case NodeReportResponse | SessionSetDeletionResponse | SessionSetModificationResponse => IsResponse
    case VersionNotSupportedResponse => IsResponse
    case _ => ByAffinityOrBalanced
  }

  /** The classification, type by type; every type but the twelve requests is handled as a response. */
  lemma MessageClasses(t: MsgType)
    ensures IsUpfRequest(t) <==> t == SessionReportRequest
    ensures IsSmfRequest(t) <==>
      t in {HeartbeatRequest, AssociationSetupRequest, AssociationUpdateRequest, AssociationReleaseRequest,
            PfdManagementRequest, NodeReportRequest, SessionEstablishmentRequest, SessionModificationRequest,
            SessionDeletionRequest, SessionSetDeletionRequest, SessionSetModificationRequest}
    ensures RouteOf(t) == ToEveryUpf <==>
      t in {HeartbeatRequest, AssociationSetupRequest, AssociationUpdateRequest, PfdManagementRequest}
    ensures RouteOf(t) == NewSession <==> t == SessionEstablishmentRequest
    ensures RouteOf(t) == ByAffinity <==> t in {SessionModificationRequest, SessionDeletionRequest}
    ensures RouteOf(t) == IsResponse <==>
      t in {HeartbeatResponse, SessionEstablishmentResponse, SessionModificationResponse, SessionDeletionResponse,
            SessionReportResponse, AssociationSetupResponse, AssociationUpdateResponse, AssociationReleaseResponse,
            PfdManagementResponse, NodeReportResponse, SessionSetDeletionResponse, SessionSetModificationResponse,
            VersionNotSupportedResponse}
  {
  }

  /** An SMF request is never classified as a response by the router, and exactly four types fall through. */
  lemma SmfRequestsAreRoutable(t: MsgType)
    requires IsSmfRequest(t)
    ensures RouteOf(t) != IsResponse
    ensures RouteOf(t) == ByAffinityOrBalanced <==>
            t in {AssociationReleaseRequest, NodeReportRequest,
                  SessionSetDeletionRequest, SessionSetModificationRequest}
  {
  }

  // Routing

  function Balanced(s: ProxyState): Selection {
    Select(s.pool, s.table)
  }

  /** The state after the balancer chose `sel.choice`: its ticket is drawn and the decision is counted. */
  function AfterBalancing(s: ProxyState, sel: Selection): ProxyState {
    s.(pool := s.pool.(nextIndex := sel.next), stats := s.stats.RoutingDecided(false, false))
  }

  function NoneChosen(s: ProxyState, sel: Selection): Routed {
    Routed(s.(pool := s.pool.(nextIndex := sel.next)), NoBackend)
  }

  function RouteNewSession(s: ProxyState, m: Message): Routed {
    var sel := Balanced(s);
    match sel.choice
    case None => NoneChosen(s, sel)
    case Some(upf) =>
      var counted := AfterBalancing(s, sel);
      Routed(counted.(stats := counted.stats.(established := counted.stats.established + 1),
                      table := if m.seid.Some? then s.table[m.seid.value := SessionInfo(upf, m.src)] else s.table),
             Single(upf))
  }

  function RouteByAffinity(s: ProxyState, m: Message): Routed {
    if m.seid == None then Routed(s, NoSeid) else
    var seid := m.seid.value;
    if seid !in s.table then Routed(s, SessionNotFound) else
    var counted := s.stats.RoutingDecided(true, false);
    if m.msgType == SessionDeletionRequest then
      Routed(s.(stats := counted.(deleted := counted.deleted + 1), table := s.table - {seid}),
             Single(s.table[seid].upf))
    else
      Routed(s.(stats := counted), Single(s.table[seid].upf))
  }

  function RouteFallThrough(s: ProxyState, m: Message): Routed {
    if m.seid.Some? && m.seid.value in s.table then
      Routed(s.(stats := s.stats.RoutingDecided(true, false)), Single(s.table[m.seid.value].upf))
    else
      var sel := Balanced(s);
      match sel.choice
      case None => NoneChosen(s, sel)
      case Some(upf) =>
        Routed(AfterBalancing(s, sel).(
                 table := if m.seid.Some? then s.table[m.seid.value := SessionInfo(upf, m.src)] else s.table),
               Single(upf))
  }

  function RouteMessage(s: ProxyState, m: Message): Routed {
    match RouteOf(m.msgType)
    case ToEveryUpf => Routed(s.(stats := s.stats.RoutingDecided(false, true)), Broadcast(AddrsOf(s.pool.backends)))
    case NewSession => RouteNewSession(s, m)
    case ByAffinity => RouteByAffinity(s, m)
    case IsResponse => Routed(s, ResponseToClient)
    case ByAffinityOrBalanced => RouteFallThrough(s, m)
  }

  // Handling; `failed` holds the indices of the sends that fail, in the order they are attempted

  /** The attempts to send one datagram to each address in turn. */
  function Attempts(to: seq<SocketAddr>, failed: set<nat>): (sends: seq<Send>)
    ensures |sends| == |to|
    ensures forall i :: 0 <= i < |to| ==> sends[i] == Send(to[i], i !in failed)
  {
    seq(|to|, i requires 0 <= i < |to| => Send(to[i], i !in failed))
  }

  function Delivered(sends: seq<Send>): nat {
    if sends == [] then 0 else
    Delivered(sends[..|sends| - 1]) + if sends[|sends| - 1].ok then 1 else 0
  }

  /** Each successful send to a UPF is counted, in total and for that UPF. */
  function CountSent(stats: Counters, sends: seq<Send>): Counters {
    if sends == [] then stats else
    var before := CountSent(stats, sends[..|sends| - 1]);
    var last := sends[|sends| - 1];
    if last.ok then before.MessageSent(last.to) else before
  }

  /**
   * The pending entry is written before the first send, and withdrawn again when no send succeeded.
   */
  function Track(pending: Requests, q: SeqNo, entry: RequestInfo, sends: seq<Send>): Requests {
    if Delivered(sends) > 0 then pending[q := entry] else pending - {q}
  }

  lemma OneMoreSend(sends: seq<Send>, send: Send, stats: Counters)
    ensures Delivered(sends + [send]) == Delivered(sends) + if send.ok then 1 else 0
    ensures CountSent(stats, sends + [send])
         == if send.ok then CountSent(stats, sends).MessageSent(send.to) else CountSent(stats, sends)
  {
    assert (sends + [send])[..|sends|] == sends;
  }

  lemma OneAttempt(send: Send, stats: Counters)
    ensures Delivered([send]) == if send.ok then 1 else 0
    ensures CountSent(stats, [send]) == if send.ok then stats.MessageSent(send.to) else stats
  {
    OneMoreSend([], send, stats);
    assert [] + [send] == [send];
  }

  /** Writing the entry before the send and withdrawing it after a failed one is what `Track` describes. */
  lemma InsertedOrWithdrawn(pending: Requests, q: SeqNo, entry: RequestInfo, sends: seq<Send>)
    ensures Track(pending, q, entry, sends)
         == if Delivered(sends) > 0 then pending[q := entry] else pending[q := entry] - {q}
  {
  }

  function HandleSmfRequest(s: ProxyState, m: Message, failed: set<nat>): Outcome {
    var routed := RouteMessage(s, m);
    var s1 := routed.state;
    match routed.decision
    case Single(upf) =>
      var sends := Attempts([upf], failed);
      Outcome(s1.(pending := Track(s1.pending, m.sequence, RequestInfo(m.src, s.clock, false, 0, false), sends),
                  stats := CountSent(s1.stats, sends)), sends)
    case Broadcast(upfs) =>
      var sends := Attempts(upfs, failed);
      Outcome(s1.(pending := Track(s1.pending, m.sequence, RequestInfo(m.src, s.clock, true, 0, false), sends),
                  stats := CountSent(s1.stats, sends)), sends)
    case _ => Outcome(s1, [])
  }

  function HandleUpfRequest(s: ProxyState, m: Message, failed: set<nat>): Outcome {
    if m.seid == None || m.seid.value !in s.table || s.table[m.seid.value].upf != m.src then Outcome(s, []) else
    var sends := Attempts([s.table[m.seid.value].smf], failed);
    Outcome(s.(pending := Track(s.pending, m.sequence, RequestInfo(m.src, s.clock, false, 0, true), sends)), sends)
  }

  function HandleResponse(s: ProxyState, m: Message, failed: set<nat>): Outcome {
    if m.sequence !in s.pending then
      Outcome(s.(stats := s.stats.(dropped := s.stats.dropped + 1)), [])
    else
      var before := s.pending[m.sequence];
      var entry := before.(responses := before.responses + 1);
      var sends := Attempts([entry.origin], failed);
      var counted := s.pending[m.sequence := entry];
      if 0 in failed then Outcome(s.(pending := counted), sends) else
      var expected := if entry.isBroadcast then |s.pool.backends| else 1;
      Outcome(s.(stats := s.stats.(forwarded := s.stats.forwarded + 1),
                 pending := if !entry.isBroadcast || entry.responses >= expected then counted - {m.sequence}
                            else counted), sends)
  }

  function HandleMessage(s: ProxyState, m: Message, failed: set<nat>): Outcome {
    var s1 := s.(stats := s.stats.MessageReceived(m.msgType));
    if IsUpfRequest(m.msgType) then HandleUpfRequest(s1, m, failed)
    else if !IsSmfRequest(m.msgType) then HandleResponse(s1, m, failed)
    else HandleSmfRequest(s1, m, failed)
  }

  // Runs

  datatype Event =
    | Receive(msg: Message, failed: set<nat>)
    | CleanupTick
    | Elapse(duration: nat)
    | AddBackend(addr: SocketAddr)
    | RemoveBackend(addr: SocketAddr)
    | UpdateHealth(addr: SocketAddr, status: HealthStatus)

  function Step(s: ProxyState, e: Event): Outcome {
    match e
    case Receive(m, failed) => HandleMessage(s, m, failed)
    case CleanupTick => Outcome(s.(pending := Unexpired(s.pending, s.clock, CLEANUP_MAX_AGE)), [])
    case Elapse(d) => Outcome(s.(clock := s.clock + d), [])
    case AddBackend(a) => Outcome(s.(pool := s.pool.(backends := Added(s.pool.backends, a))), [])
    case RemoveBackend(a) => Outcome(s.(pool := s.pool.(backends := Removed(s.pool.backends, a))), [])
    case UpdateHealth(a, h) => Outcome(s.(pool := s.pool.(backends := HealthUpdated(s.pool.backends, a, h))), [])
  }

  /** Any sequence of events from a freshly started proxy. */
  datatype Run = Start(backends: seq<SocketAddr>, strategy: Strategy) | Then(before: Run, event: Event)

  function Initial(backends: seq<SocketAddr>, strategy: Strategy): ProxyState {
    ProxyState(PoolState(NewBackends(backends), 0, strategy), map[], map[], ZERO, 0)
  }

  function After(r: Run): ProxyState {
    match r
    case Start(backends, strategy) => Initial(backends, strategy)
    case Then(before, e) => Step(After(before), e).state
  }

  /** What the last event of the run made the proxy send. */
  function SendsOf(r: Run): seq<Send> {
    match r
    case Start(_, _) => []
    case Then(before, e) => Step(After(before), e).sends
  }

  function StrategyOf(r: Run): Strategy {
    match r
    case Start(_, strategy) => strategy
    case Then(before, _) => StrategyOf(before)
  }

  function InitialBackends(r: Run): seq<SocketAddr> {
    match r
    case Start(backends, _) => backends
    case Then(before, _) => InitialBackends(before)
  }

  // What one step does to each component

  /** The requests for which the balancer picks a UPF: new sessions, and fall-through types without a binding. */
  predicate IsBalanced(s: ProxyState, m: Message) {
    && IsSmfRequest(m.msgType)
    && (RouteOf(m.msgType) == NewSession
        || (RouteOf(m.msgType) == ByAffinityOrBalanced && !(m.seid.Some? && m.seid.value in s.table)))
  }

  predicate Balances(s: ProxyState, e: Event) {
    e.Receive? && IsBalanced(s, e.msg)
  }

  /** The UPF the balancer picks while handling the event, if it picks one. */
  function Choice(s: ProxyState, e: Event): Option<SocketAddr> {
    if Balances(s, e) then Balanced(s).choice else None
  }

  /** The addresses an SMF request is sent to. */
  function Targets(s: ProxyState, m: Message): seq<SocketAddr> {
    match RouteOf(m.msgType)
    case ToEveryUpf => AddrsOf(s.pool.backends)
    case IsResponse => []
    case _ =>
      if IsBalanced(s, m) then (if Balanced(s).choice.Some? then [Balanced(s).choice.value] else [])
      else if m.seid.Some? && m.seid.value in s.table then [s.table[m.seid.value].upf]
      else []
  }

  lemma {:induction false} CountSentTouchesOnlySends(stats: Counters, sends: seq<Send>)
    ensures CountSent(stats, sends) == stats.(sent := CountSent(stats, sends).sent,
                                              perUpf := CountSent(stats, sends).perUpf)
    ensures CountSent(stats, sends).sent == stats.sent + Delivered(sends)
  {
    if sends != [] {
      CountSentTouchesOnlySends(stats, sends[..|sends| - 1]);
    }
  }

  lemma RouteEffects(s: ProxyState, m: Message)
    requires IsSmfRequest(m.msgType)
    ensures var routed := RouteMessage(s, m);
      && routed.state.pool == s.pool.(nextIndex := if IsBalanced(s, m) then Balanced(s).next else s.pool.nextIndex)
      && routed.state.pending == s.pending
      && routed.state.clock == s.clock
      && routed.decision != ResponseToClient
      && (routed.decision.Broadcast? <==> RouteOf(m.msgType) == ToEveryUpf)
      && Targets(s, m) == match routed.decision
                          case Single(upf) => [upf]
                          case Broadcast(upfs) => upfs
                          case _ => []
  {
    SmfRequestsAreRoutable(m.msgType);
    hide Select, RouteOf, IsSmfRequest;
  }

  lemma SmfRequestEffects(s: ProxyState, m: Message, failed: set<nat>)
    requires IsSmfRequest(m.msgType)
    ensures var out := Step(s, Receive(m, failed));
      var routed := RouteMessage(s.(stats := s.stats.MessageReceived(m.msgType)), m);
      && out.sends == Attempts(Targets(s, m), failed)
      && out.state.pool == s.pool.(nextIndex := if IsBalanced(s, m) then Balanced(s).next else s.pool.nextIndex)
      && out.state.table == routed.state.table
      && out.state.clock == s.clock
      && out.state.stats == CountSent(routed.state.stats, out.sends)
  {
    hide Select, RouteMessage, RouteOf;
    var s1 := s.(stats := s.stats.MessageReceived(m.msgType));
    RouteEffects(s1, m);
    assert Balanced(s1) == Balanced(s);
    assert Targets(s1, m) == Targets(s, m);
  }

  /** A deletion whose SEID is bound. */
  predicate Unbinds(s: ProxyState, e: Event) {
    e.Receive? && e.msg.msgType == SessionDeletionRequest && e.msg.seid.Some? && e.msg.seid.value in s.table
  }

  function TableAfter(s: ProxyState, e: Event): Table {
    if Choice(s, e).Some? && e.msg.seid.Some? then
      s.table[e.msg.seid.value := SessionInfo(Choice(s, e).value, e.msg.src)]
    else if Unbinds(s, e) then s.table - {e.msg.seid.value}
    else s.table
  }

  lemma RouteTable(s: ProxyState, e: Event)
    requires e.Receive? && IsSmfRequest(e.msg.msgType)
    ensures var out := RouteMessage(s, e.msg).state;
      && out.table == TableAfter(s, e)
      && out.stats.deleted == s.stats.deleted + (if Unbinds(s, e) then 1 else 0)
  {
    SmfRequestsAreRoutable(e.msg.msgType);
    assert e.msg.msgType == SessionDeletionRequest ==> RouteOf(e.msg.msgType) == ByAffinity;
    hide Select, RouteOf, IsSmfRequest;
  }

  /** Bindings are made only by balanced requests that carry a SEID, and undone only by deletions. */
  lemma TableAfterStep(s: ProxyState, e: Event)
    ensures var out := Step(s, e).state;
      && out.table == TableAfter(s, e)
      && out.stats.deleted == s.stats.deleted + (if Unbinds(s, e) then 1 else 0)
  {
    if e.Receive? && IsSmfRequest(e.msg.msgType) {
      hide Step, Select, RouteMessage, RouteOf;
      var s1 := s.(stats := s.stats.MessageReceived(e.msg.msgType));
      SmfRequestEffects(s, e.msg, e.failed);
      RouteTable(s1, e);
      assert Balanced(s1) == Balanced(s);
      CountSentTouchesOnlySends(RouteMessage(s1, e.msg).state.stats, Step(s, e).sends);
    }
  }

  lemma PoolAfterStep(s: ProxyState, e: Event)
    ensures Step(s, e).state.pool == s.pool.(
      nextIndex := if Balances(s, e) then Balanced(s).next else s.pool.nextIndex,
      backends := match e
                  case AddBackend(a) => Added(s.pool.backends, a)
                  case RemoveBackend(a) => Removed(s.pool.backends, a)
                  case UpdateHealth(a, h) => HealthUpdated(s.pool.backends, a, h)
                  case _ => s.pool.backends)
  {
    if e.Receive? && IsSmfRequest(e.msg.msgType) {
      SmfRequestEffects(s, e.msg, e.failed);
    }
  }

  /** In every reachable state the strategy is the configured one and the ticket counter fits its width. */
  lemma {:induction false} StrategyNeverChanges(r: Run)
    ensures After(r).pool.strategy == StrategyOf(r)
    ensures After(r).pool.nextIndex < USIZE_MODULUS
  {
    if r.Then? {
      StrategyNeverChanges(r.before);
      PoolAfterStep(After(r.before), r.event);
    }
  }

  /** A proxy with one fresh backend picks it for an establishment. */
  lemma OnlyBackendIsPicked(upf: SocketAddr, e: Event)
    requires e.Receive? && e.msg.msgType == SessionEstablishmentRequest
    ensures Choice(After(Start([upf], RoundRobin)), e) == Some(upf)
  {
    var b := NewBackend(upf);
    assert NewBackends([upf]) == [b] && [b][..0] == [];
    assert HealthyOf([b]) == [b] && AddrsOf([b]) == [upf];
  }
}
