/** What the proxy does with each message type, by name: its routing decisions, and what it sends after any run. */
module Dispatch {
  import opened Types
  import opened Sessions
  import opened Pool
  import opened Routing
  import opened Affinity
  import opened Delivery
  import opened Ledgers
  import opened Fairness

  /** The UPF and SMF bound to the message's SEID, if it has one that is bound. */
  function BindingOf(table: Table, m: Message): Option<SessionInfo> {
    if m.seid.Some? then Binding(table, m.seid.value) else None
  }

  /** The routing table, type by type. */
  lemma RoutingTable(s: ProxyState, m: Message)
    ensures var decision, pick := RouteMessage(s, m).decision, Select(s.pool, s.table).choice;
      var bound := BindingOf(s.table, m);
      match m.msgType
      case HeartbeatRequest | AssociationSetupRequest | AssociationUpdateRequest | PfdManagementRequest =>
        && decision.Broadcast? && |decision.upfs| == |s.pool.backends|
        && forall i :: 0 <= i < |s.pool.backends| ==> decision.upfs[i] == s.pool.backends[i].addr
      case SessionEstablishmentRequest => decision == if pick.Some? then Single(pick.value) else NoBackend
      case SessionModificationRequest | SessionDeletionRequest =>
        decision == if m.seid == None then NoSeid
                    else if bound.Some? then Single(bound.value.upf) else SessionNotFound
      case HeartbeatResponse | AssociationSetupResponse | AssociationUpdateResponse => decision == ResponseToClient
      case AssociationReleaseResponse | PfdManagementResponse | NodeReportResponse => decision == ResponseToClient
      case SessionEstablishmentResponse | SessionModificationResponse => decision == ResponseToClient
      case SessionDeletionResponse | SessionReportResponse => decision == ResponseToClient
      case SessionSetDeletionResponse | SessionSetModificationResponse => decision == ResponseToClient
      case VersionNotSupportedResponse => decision == ResponseToClient
      case _ =>
        decision == if bound.Some? then Single(bound.value.upf)
                    else if pick.Some? then Single(pick.value) else NoBackend
  {
    MessageClasses(m.msgType);
    hide Select, RouteOf;
  }

  /** Node-level requests go to every pool member, in pool order, and change neither the sessions nor the pool. */
  lemma NodeMessagesReachEveryUpf(r: Run, m: Message, failed: set<nat>)
    requires m.msgType in {HeartbeatRequest, AssociationSetupRequest, AssociationUpdateRequest, PfdManagementRequest}
    ensures var next := Then(r, Receive(m, failed));
      var pool, sends := After(r).pool.backends, SendsOf(next);
      && |sends| == |pool|
      && (forall i :: 0 <= i < |pool| ==> sends[i] == Send(pool[i].addr, i !in failed))
      && After(next).table == After(r).table && After(next).pool == After(r).pool
      && After(next).stats.broadcasts == After(r).stats.broadcasts + 1
  {
    var s, e := After(r), Receive(m, failed);
    MessageClasses(m.msgType);
    hide Step, Select, RouteOf, IsSmfRequest;
    SmfRequestEffects(s, m, failed);
    TableAfterStep(s, e);
    SendCountersAfterStep(s, e, m.src);
  }

  /** None of the eleven SMF requests is ever taken for a response. */
  lemma SmfRequestsAreNotResponses(r: Run, m: Message, failed: set<nat>)
    requires m.msgType in {HeartbeatRequest, AssociationSetupRequest, AssociationUpdateRequest,
                           AssociationReleaseRequest, PfdManagementRequest, NodeReportRequest,
                           SessionEstablishmentRequest, SessionModificationRequest, SessionDeletionRequest,
                           SessionSetDeletionRequest, SessionSetModificationRequest}
    ensures var before, after := After(r).stats, After(Then(r, Receive(m, failed))).stats;
      after.dropped == before.dropped && after.forwarded == before.forwarded
  {
    MessageClasses(m.msgType);
    hide Step, Select, RouteOf, IsSmfRequest;
    MessageCountersAfterStep(After(r), Receive(m, failed));
  }

  /** Every type but the twelve requests is: it goes to the origin of its pending request, or is dropped. */
  lemma EverythingElseIsAResponse(r: Run, m: Message, failed: set<nat>)
    requires m.msgType !in {HeartbeatRequest, AssociationSetupRequest, AssociationUpdateRequest,
                            AssociationReleaseRequest, PfdManagementRequest, NodeReportRequest,
                            SessionEstablishmentRequest, SessionModificationRequest, SessionDeletionRequest,
                            SessionSetDeletionRequest, SessionSetModificationRequest, SessionReportRequest}
    ensures var s, next := After(r), Then(r, Receive(m, failed));
      && After(next).table == s.table && After(next).pool == s.pool
      && if m.sequence in s.pending
         then SendsOf(next) == [Send(s.pending[m.sequence].origin, 0 !in failed)]
              && After(next).stats.dropped == s.stats.dropped
              && After(next).stats.forwarded == s.stats.forwarded + (if 0 in failed then 0 else 1)
         else SendsOf(next) == [] && After(next).stats.dropped == s.stats.dropped + 1
              && After(next).stats.forwarded == s.stats.forwarded
  {
    var s, e := After(r), Receive(m, failed);
    MessageClasses(m.msgType);
    hide Step, Select, RouteOf, IsSmfRequest;
    ResponsePending(s, e);
    TableAfterStep(s, e);
    PoolAfterStep(s, e);
    MessageCountersAfterStep(s, e);
  }

  /** What a balanced request does: it draws the balancer's pick, is sent there alone, and binds its SEID to it. */
  ghost predicate IsHandedToPick(r: Run, m: Message, failed: set<nat>) {
    var s, next, sel := After(r), Then(r, Receive(m, failed)), Select(After(r).pool, After(r).table);
    && SendsOf(next) == (if sel.choice.Some? then [Send(sel.choice.value, 0 !in failed)] else [])
    && After(next).pool == s.pool.(nextIndex := sel.next)
    && After(next).table == (if sel.choice.Some? && m.seid.Some?
                             then s.table[m.seid.value := SessionInfo(sel.choice.value, m.src)] else s.table)
    && After(next).stats.byLoadBalance == s.stats.byLoadBalance + (if sel.choice.Some? then 1 else 0)
  }

  lemma EstablishmentsAreBalanced(r: Run, m: Message, failed: set<nat>)
    requires m.msgType == SessionEstablishmentRequest
    ensures IsHandedToPick(r, m, failed)
    ensures After(Then(r, Receive(m, failed))).stats.established
         == After(r).stats.established + if Select(After(r).pool, After(r).table).choice.Some? then 1 else 0
  {
    var s, e := After(r), Receive(m, failed);
    MessageClasses(m.msgType);
    hide Step, Select, RouteOf, IsSmfRequest;
    SmfRequestEffects(s, m, failed);
    TableAfterStep(s, e);
    LoadBalancedCount(s, e);
    EstablishedCount(s, e);
  }

  /**
   * A modification or deletion goes to the UPF of its SEID's latest binding; without a bound SEID it goes nowhere. Only
   * a deletion changes the sessions, and neither draws a ticket.
   */
  lemma SessionMessagesFollowBindings(r: Run, m: Message, failed: set<nat>)
    requires m.msgType in {SessionModificationRequest, SessionDeletionRequest}
    ensures var s, next := After(r), Then(r, Receive(m, failed));
      var bound := if m.seid.Some? then LatestBinding(r, m.seid.value) else None;
      && SendsOf(next) == (if bound.Some? then [Send(bound.value.upf, 0 !in failed)] else [])
      && After(next).pool == s.pool
      && After(next).table == (if bound.Some? && m.msgType == SessionDeletionRequest then s.table - {m.seid.value}
                               else s.table)
      && After(next).stats.deleted
         == s.stats.deleted + (if bound.Some? && m.msgType == SessionDeletionRequest then 1 else 0)
  {
    var s, e := After(r), Receive(m, failed);
    MessageClasses(m.msgType);
    if m.seid.Some? {
      TableIsLatestBindings(r, m.seid.value);
    }
    hide Step, Select, RouteOf, IsSmfRequest, LatestBinding;
    SmfRequestEffects(s, m, failed);
    TableAfterStep(s, e);
  }

  /** The remaining requests follow a binding if there is one and are balanced otherwise. */
  lemma OtherRequestsFallThrough(r: Run, m: Message, failed: set<nat>)
    requires m.msgType in {AssociationReleaseRequest, NodeReportRequest, SessionSetDeletionRequest,
                           SessionSetModificationRequest}
    ensures var next, bound := Then(r, Receive(m, failed)), BindingOf(After(r).table, m);
      if bound.Some?
      then SendsOf(next) == [Send(bound.value.upf, 0 !in failed)]
           && After(next).table == After(r).table && After(next).pool == After(r).pool
      else IsHandedToPick(r, m, failed)
    ensures After(Then(r, Receive(m, failed))).stats.established == After(r).stats.established
  {
    var s, e := After(r), Receive(m, failed);
    MessageClasses(m.msgType);
    hide Step, Select, RouteOf, IsSmfRequest;
    SmfRequestEffects(s, m, failed);
    TableAfterStep(s, e);
    LoadBalancedCount(s, e);
    EstablishedCount(s, e);
  }
}
