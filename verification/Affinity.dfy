/** Session affinity, as an observer of the network who never sees the proxy's table can state it. */
module Affinity {
  import opened Types
  import opened Sessions
  import opened Pool
  import opened Statistics
  import opened Routing

  /**
   * What one event tells the observer about a SEID that it believed bound to `known`. An establishment that was sent
   * somewhere binds the SEID to that UPF and to its sender; a deletion that was sent somewhere unbinds it; and one of
   * the remaining SEID-carrying requests binds it if it was unbound.
   */
  function Observe(known: Option<SessionInfo>, seid: Seid, e: Event, sends: seq<Send>): Option<SessionInfo> {
    if !e.Receive? || e.msg.seid != Some(seid) || sends == [] then known else
    var binding := SessionInfo(sends[0].to, e.msg.src);
    match e.msg.msgType
    case SessionEstablishmentRequest => Some(binding)
    case SessionDeletionRequest => None
    case AssociationReleaseRequest | NodeReportRequest => if known.Some? then known else Some(binding)
    case SessionSetDeletionRequest | SessionSetModificationRequest => if known.Some? then known else Some(binding)
    case _ => known
  }

  /** The latest binding of a SEID not since deleted, computed from the messages and sends of the run alone. */
  function LatestBinding(r: Run, seid: Seid): Option<SessionInfo> {
    match r
    case Start(_, _) => None
    case Then(before, e) => Observe(LatestBinding(before, seid), seid, e, SendsOf(r))
  }

  lemma StepIsObserved(s: ProxyState, e: Event, seid: Seid)
    ensures Binding(Step(s, e).state.table, seid) == Observe(Binding(s.table, seid), seid, e, Step(s, e).sends)
  {
    hide Step, Select, RouteOf, IsSmfRequest;
    TableAfterStep(s, e);
    if e.Receive? {
      MessageClasses(e.msg.msgType);
      if IsSmfRequest(e.msg.msgType) {
        SmfRequestEffects(s, e.msg, e.failed);
      }
    }
  }

  /** At any point of any run the table holds exactly the latest bindings the observer knows of. */
  lemma {:induction false} TableIsLatestBindings(r: Run, seid: Seid)
    ensures Binding(After(r).table, seid) == LatestBinding(r, seid)
  {
    hide Step;
    if r.Then? {
      TableIsLatestBindings(r.before, seid);
      StepIsObserved(After(r.before), r.event, seid);
    }
  }

  /**
   * Session affinity: after any run, whatever other sessions, health changes, pool changes or strategy occurred, a
   * request that follows affinity goes to the UPF of its SEID's latest binding and nowhere else. Without a binding a
   * modification or deletion is sent nowhere and leaves the table as it is.
   */
  lemma SessionAffinity(r: Run, m: Message, failed: set<nat>)
    requires m.seid.Some?
    requires m.msgType in {SessionModificationRequest, SessionDeletionRequest, AssociationReleaseRequest,
                           NodeReportRequest, SessionSetDeletionRequest, SessionSetModificationRequest}
    ensures var binding, next := LatestBinding(r, m.seid.value), Then(r, Receive(m, failed));
      && (binding.Some? ==> SendsOf(next) == [Send(binding.value.upf, 0 !in failed)])
      && (binding == None && m.msgType in {SessionModificationRequest, SessionDeletionRequest} ==>
            SendsOf(next) == [] && After(next).table == After(r).table)
  {
    hide Step, Select, RouteOf, IsSmfRequest;
    MessageClasses(m.msgType);
    TableIsLatestBindings(r, m.seid.value);
    SmfRequestEffects(After(r), m, failed);
    TableAfterStep(After(r), Receive(m, failed));
  }

  /**
   * Reverse flow: a session report is sent on exactly when it comes from the UPF its SEID is bound to, and then to
   * the SMF of that binding only.
   */
  lemma ReportGoesToBoundSmf(r: Run, m: Message, failed: set<nat>)
    requires m.msgType == SessionReportRequest
    ensures var binding := if m.seid.Some? then LatestBinding(r, m.seid.value) else None;
      SendsOf(Then(r, Receive(m, failed)))
      == if binding.Some? && binding.value.upf == m.src then [Send(binding.value.smf, 0 !in failed)] else []
  {
    if m.seid.Some? {
      TableIsLatestBindings(r, m.seid.value);
    }
  }

  // The table changes before the request is sent, and stays changed when the send fails

  /**
   * A balanced request that carries a SEID binds it to the picked UPF whatever becomes of the request; that UPF has
   * been sent the request exactly when the one send it takes succeeds.
   */
  lemma BindingIsBackedExactlyWhenSent(r: Run, m: Message, failed: set<nat>)
    requires Choice(After(r), Receive(m, failed)).Some? && m.seid.Some?
    ensures var next, upf := Then(r, Receive(m, failed)), Choice(After(r), Receive(m, failed)).value;
      && Binding(After(next).table, m.seid.value) == Some(SessionInfo(upf, m.src))
      && (Send(upf, true) in SendsOf(next) <==> 0 !in failed)
      && (Delivered(SendsOf(next)) > 0 <==> 0 !in failed)
  {
    var e := Receive(m, failed);
    SmfRequestEffects(After(r), m, failed);
    hide Step, Select, RouteOf;
    TableAfterStep(After(r), e);
    OneAttempt(SendsOf(Then(r, e))[0], ZERO);
  }

  /**
   * An establishment that is never sent leaves its SEID bound: later modifications go to a UPF that never heard of the
   * session.
   */
  lemma LostEstablishmentStaysBound(upf: SocketAddr, smf: SocketAddr, m: Message, failed: set<nat>)
    requires m.msgType == SessionModificationRequest && m.seid == Some(7)
    ensures var r := Then(Start([upf], RoundRobin),
                          Receive(Message(SessionEstablishmentRequest, Some(7), 1, smf), {0}));
      && Delivered(SendsOf(r)) == 0
      && Binding(After(r).table, 7) == Some(SessionInfo(upf, smf))
      && SendsOf(Then(r, Receive(m, failed))) == [Send(upf, 0 !in failed)]
  {
    var start, e := Start([upf], RoundRobin), Receive(Message(SessionEstablishmentRequest, Some(7), 1, smf), {0});
    OnlyBackendIsPicked(upf, e);
    hide Step, Select;
    BindingIsBackedExactlyWhenSent(start, e.msg, {0});
    TableIsLatestBindings(Then(start, e), 7);
    SessionAffinity(Then(start, e), m, failed);
  }

  /**
   * The mirror image: a deletion whose SEID is bound unbinds it even when its send fails; the UPF has then not heard
   * of it, and repeating the deletion reaches nobody.
   */
  lemma LostDeletionCannotBeRepeated(r: Run, m: Message, failed: set<nat>, again: Message, failedAgain: set<nat>)
    requires m.msgType == SessionDeletionRequest && m.seid.Some? && LatestBinding(r, m.seid.value).Some?
    requires again.msgType == SessionDeletionRequest && again.seid == m.seid
    ensures var next := Then(r, Receive(m, failed));
      && SendsOf(next) == [Send(LatestBinding(r, m.seid.value).value.upf, 0 !in failed)]
      && m.seid.value !in After(next).table
      && SendsOf(Then(next, Receive(again, failedAgain))) == []
  {
    hide Step, Select, IsSmfRequest;
    var next := Then(r, Receive(m, failed));
    SessionAffinity(r, m, failed);
    TableIsLatestBindings(next, m.seid.value);
    SessionAffinity(next, again, failedAgain);
  }

  // Every bound UPF is in the pool, as long as none is ever removed

  ghost predicate NothingRemoved(r: Run) {
    r.Start? || (!r.event.RemoveBackend? && NothingRemoved(r.before))
  }

  ghost predicate BoundInPool(s: ProxyState) {
    forall seid :: seid in s.table ==> s.table[seid].upf in AddrsOf(s.pool.backends)
  }

  lemma StepBindsPoolMembers(s: ProxyState, e: Event)
    requires BoundInPool(s) && !e.RemoveBackend?
    ensures BoundInPool(Step(s, e).state)
  {
    hide Step, Select;
    PoolAfterStep(s, e);
    SelectedIsHealthyMember(s.pool, s.table);
    match e {
      case AddBackend(a) =>
        forall b
          ensures b in AddrsOf(s.pool.backends) ==> b in AddrsOf(Added(s.pool.backends, a))
        {
          AddedMembership(s.pool.backends, a, b);
        }
      case UpdateHealth(a, h) => HealthUpdatedKeepsAddrs(s.pool.backends, a, h);
      case Receive(m, failed) => if IsSmfRequest(m.msgType) { SmfRequestEffects(s, m, failed); }
      case _ =>
    }
    forall seid | seid in Step(s, e).state.table
      ensures Step(s, e).state.table[seid].upf in AddrsOf(Step(s, e).state.pool.backends)
    {
      StepIsObserved(s, e, seid);
    }
  }

  lemma {:induction false} DistinctPoolStaysDistinct(r: Run)
    requires Distinct(InitialBackends(r))
    ensures Distinct(AddrsOf(After(r).pool.backends))
  {
    hide Step;
    if r.Then? {
      var backends := After(r.before).pool.backends;
      DistinctPoolStaysDistinct(r.before);
      PoolAfterStep(After(r.before), r.event);
      match r.event
      case AddBackend(a) => AddedMembership(backends, a, a);
      case RemoveBackend(a) => RemovedAddrs(backends, a);
      case UpdateHealth(a, h) => HealthUpdatedKeepsAddrs(backends, a, h);
      case _ =>
    }
  }

  lemma {:induction false} BindingsStayInPool(r: Run)
    requires NothingRemoved(r)
    ensures BoundInPool(After(r))
  {
    hide Step;
    if r.Then? {
      BindingsStayInPool(r.before);
      StepBindsPoolMembers(After(r.before), r.event);
    }
  }

  /**
   * After any run from distinct backends, the active sessions a snapshot reports per UPF add up to at most the number
   * of sessions, and to exactly that number when no backend was ever removed.
   */
  lemma SnapshotOfRunAgrees(r: Run)
    requires Distinct(InitialBackends(r))
    ensures var s := After(r);
      var snap := SnapshotOf(s.stats, s.table, s.pool.backends);
      && ActiveTotal(snap.upfStats, |snap.upfStats|) <= snap.activeSessions
      && (ActiveTotal(snap.upfStats, |snap.upfStats|) == snap.activeSessions <==> BoundInPool(s))
      && (NothingRemoved(r) ==> ActiveTotal(snap.upfStats, |snap.upfStats|) == snap.activeSessions)
  {
    var s := After(r);
    DistinctPoolStaysDistinct(r);
    SnapshotAgreesWithTable(s.stats, s.table, s.pool.backends);
    if NothingRemoved(r) {
      BindingsStayInPool(r);
    }
  }
}
