/** The ticket counter over whole runs of the proxy, and what it means for who gets the balanced requests. */
module Fairness {
  import opened Types
  import opened Pool
  import opened Routing
  import opened Affinity
  import opened Tickets

  /** The UPFs the balancer picked, in order, in the part of run `r` that comes after its prefix `from`. */
  function PicksSince(from: Run, r: Run): seq<SocketAddr> {
    if r == from || r.Start? then [] else
    var choice := Choice(After(r.before), r.event);
    PicksSince(from, r.before) + if choice.Some? then [choice.value] else []
  }

  /** Throughout the part of `r` after its prefix `from`, the addresses that may be chosen are `addrs`. */
  ghost predicate SteadySince(from: Run, r: Run, addrs: seq<SocketAddr>) {
    && AddrsOf(HealthyOf(After(r).pool.backends)) == addrs
    && (r == from || (r.Then? && SteadySince(from, r.before, addrs)))
  }

  function Times(picks: seq<SocketAddr>, addr: SocketAddr): nat {
    if picks == [] then 0 else
    Times(picks[..|picks| - 1], addr) + if picks[|picks| - 1] == addr then 1 else 0
  }

  /** The whole run, seen from its start. */
  function Beginning(r: Run): Run {
    if r.Start? then r else Beginning(r.before)
  }

  lemma LoadBalancedCount(s: ProxyState, e: Event)
    ensures Step(s, e).state.stats.byLoadBalance
         == s.stats.byLoadBalance + if Choice(s, e).Some? then 1 else 0
  {
    if e.Receive? && IsSmfRequest(e.msg.msgType) {
      hide Select, RouteOf;
      var m := e.msg;
      SmfRequestsAreRoutable(m.msgType);
      var s1 := s.(stats := s.stats.MessageReceived(m.msgType));
      SmfRequestEffects(s, m, e.failed);
      CountSentTouchesOnlySends(RouteMessage(s1, m).state.stats, Step(s, e).sends);
      assert Balanced(s1) == Balanced(s);
    }
  }

  /** A balanced request goes to the picked UPF and nowhere else, and to nobody when nothing was picked. */
  lemma PickIsWhereItIsSent(s: ProxyState, e: Event)
    requires Balances(s, e)
    ensures Step(s, e).sends == match Choice(s, e)
                                case Some(upf) => [Send(upf, 0 !in e.failed)]
                                case None => []
  {
    SmfRequestEffects(s, e.msg, e.failed);
  }

  /**
   * In every reachable state the ticket counter is the number of load-balanced requests, modulo its width; under
   * least-sessions no ticket is ever drawn.
   */
  lemma {:induction false} TicketLedger(r: Run)
    ensures After(r).pool.nextIndex
         == if StrategyOf(r) == LeastSessions then 0 else After(r).stats.byLoadBalance % 0x1_0000_0000_0000_0000
    ensures |PicksSince(Beginning(r), r)| == After(r).stats.byLoadBalance
  {
    hide Step, Select, Shown;
    BeginningIsSmaller(r);
    if r.Then? {
      var s := After(r.before);
      TicketLedger(r.before);
      StrategyNeverChanges(r.before);
      LoadBalancedCount(s, r.event);
      PoolAfterStep(s, r.event);
      SelectDrawsOneTicket(s.pool, s.table);
      ShownAdvances(s.stats.byLoadBalance);
    }
  }

  lemma {:induction false} BeginningIsSmaller(r: Run)
    ensures r.Then? ==> r != Beginning(r)
    ensures Beginning(r).Start?
  {
    if r.Then? {
      BeginningIsSmaller(r.before);
    }
  }

  /** Under round robin a step draws one ticket for each pick, and the pick is the ticket's. */
  lemma RoundRobinStep(s: ProxyState, e: Event)
    requires s.pool.strategy == RoundRobin && s.pool.nextIndex < USIZE_MODULUS
    ensures var choice, ticket := Choice(s, e), s.pool.nextIndex;
      && Step(s, e).state.pool.nextIndex == (if choice.Some? then (ticket + 1) % USIZE_MODULUS else ticket)
      && (choice.Some? ==> SelectRoundRobin(AddrsOf(HealthyOf(s.pool.backends)), ticket).choice == choice)
  {
    PoolAfterStep(s, e);
    SelectDrawsOneTicket(s.pool, s.table);
    hide Step, HealthyOf, SelectRoundRobin, SelectLeastSessions, SelectWeighted;
  }

  lemma NoPicks(addr: SocketAddr)
    ensures Times([], addr) == 0
  {
  }

  lemma TimesOfNext(picks: seq<SocketAddr>, pick: SocketAddr, addr: SocketAddr)
    ensures Times(picks + [pick], addr) == Times(picks, addr) + if pick == addr then 1 else 0
  {
    assert (picks + [pick])[..|picks|] == picks;
  }

  /** While the selectable backends stay the same, the picks are exactly those of the consecutive tickets. */
  lemma {:induction false} PicksFollowTickets(from: Run, r: Run, addrs: seq<SocketAddr>, addr: SocketAddr)
    requires StrategyOf(r) == RoundRobin && SteadySince(from, r, addrs)
    ensures var first, n := After(from).pool.nextIndex, |PicksSince(from, r)|;
      && After(r).pool.nextIndex == Shown(first + n)
      && Times(PicksSince(from, r), addr) == TimesRoundRobin(addrs, first, n, addr)
  {
    hide Step, Choice, SelectRoundRobin, Shown, Times, HealthyOf;
    if r == from {
      StrategyNeverChanges(r);
      NoPicks(addr);
    } else {
      var s, picks := After(r.before), PicksSince(from, r.before);
      PicksFollowTickets(from, r.before, addrs, addr);
      StrategyNeverChanges(r.before);
      RoundRobinStep(s, r.event);
      ShownAdvances(After(from).pool.nextIndex + |picks|);
      if Choice(s, r.event).Some? {
        TimesOfNext(picks, Choice(s, r.event).value, addr);
      } else {
        assert PicksSince(from, r) == picks;
      }
    }
  }

  lemma SteadyIsDistinct(from: Run, r: Run, addrs: seq<SocketAddr>)
    requires SteadySince(from, r, addrs) && Distinct(InitialBackends(r))
    ensures Distinct(addrs)
  {
    DistinctPoolStaysDistinct(r);
    HealthyDistinct(After(r).pool.backends);
  }

  /**
   * In any stretch of a round-robin run in which the selectable backends do not change, the numbers of balanced
   * requests two of them received differ by at most one plus the wraps of the counter, and by at most one when the
   * number of backends divides the counter's width.
   */
  lemma RoundRobinRunIsFair(from: Run, r: Run, addrs: seq<SocketAddr>, i: nat, j: nat)
    requires StrategyOf(r) == RoundRobin && SteadySince(from, r, addrs)
    requires i < |addrs| && j < |addrs| && Distinct(InitialBackends(r))
    ensures var picks, first := PicksSince(from, r), After(from).pool.nextIndex;
      && Times(picks, addrs[i]) <= Times(picks, addrs[j]) + 1 + Wraps(first, |picks|)
      && (USIZE_MODULUS % |addrs| == 0 ==> Times(picks, addrs[i]) <= Times(picks, addrs[j]) + 1)
  {
    hide TimesRoundRobin, Step, Select;
    SteadyIsDistinct(from, r, addrs);
    PicksFollowTickets(from, r, addrs, addrs[i]);
    PicksFollowTickets(from, r, addrs, addrs[j]);
    StrategyNeverChanges(from);
    var first, n := After(from).pool.nextIndex, |PicksSince(from, r)|;
    RoundRobinFair(addrs, first, n, i, j);
    if USIZE_MODULUS % |addrs| == 0 {
      FairWithinCycle(addrs, first, n, i, j);
    }
  }

  /** A round-robin run over m steady backends: after k balanced requests backend i has received ceil((k - i) / m). */
  lemma RoundRobinRunClosedForm(r: Run, addrs: seq<SocketAddr>, i: nat)
    requires StrategyOf(r) == RoundRobin && SteadySince(Beginning(r), r, addrs)
    requires i < |addrs| && Distinct(InitialBackends(r))
    requires After(r).stats.byLoadBalance <= USIZE_MODULUS
    ensures var k, m := After(r).stats.byLoadBalance, |addrs|;
      Times(PicksSince(Beginning(r), r), addrs[i]) == (k + m - 1 - i) / m
  {
    hide TimesRoundRobin, Step, Select;
    SteadyIsDistinct(Beginning(r), r, addrs);
    TicketLedger(r);
    BeginningIsSmaller(r);
    PicksFollowTickets(Beginning(r), r, addrs, addrs[i]);
    RoundRobinClosedForm(addrs, After(r).stats.byLoadBalance, i);
  }

  // Weighted selection in the running proxy

  ghost predicate UnitWeights(backends: seq<UpfBackend>) {
    forall b :: b in backends ==> b.weight == 1
  }

  lemma {:induction false} RemovedKeepsMembers(backends: seq<UpfBackend>, addr: SocketAddr)
    ensures forall b :: b in Removed(backends, addr) ==> b in backends
  {
    if backends != [] {
      RemovedKeepsMembers(backends[..|backends| - 1], addr);
    }
  }

  lemma {:induction false} HealthUpdateKeepsWeights(backends: seq<UpfBackend>, addr: SocketAddr, status: HealthStatus)
    requires UnitWeights(backends)
    ensures UnitWeights(HealthUpdated(backends, addr, status))
    ensures |HealthUpdated(backends, addr, status)| == |backends|
  {
    if backends != [] {
      assert forall b :: b in backends[1..] ==> b in backends;
      if backends[0].addr != addr {
        HealthUpdateKeepsWeights(backends[1..], addr, status);
      }
    }
  }

  /** Every reachable pool has only weights of one, and no run grows a pool beyond 64 or its initial size. */
  lemma {:induction false} ReachablePoolsHaveUnitWeights(r: Run)
    ensures UnitWeights(After(r).pool.backends)
    ensures |After(r).pool.backends| <= |InitialBackends(r)| || |After(r).pool.backends| <= 64
  {
    if r.Then? {
      var s := After(r.before);
      ReachablePoolsHaveUnitWeights(r.before);
      PoolAfterStep(s, r.event);
      match r.event
      case RemoveBackend(a) =>
        RemovedKeepsMembers(s.pool.backends, a);
        RemovedAddrs(s.pool.backends, a);
      case UpdateHealth(a, h) => HealthUpdateKeepsWeights(s.pool.backends, a, h);
      case _ =>
    }
  }

  lemma {:induction false} UnitWeightBefore(backends: seq<UpfBackend>, k: nat)
    requires UnitWeights(backends) && k <= |backends|
    ensures WeightBefore(backends, k) == k
  {
    if k > 0 {
      UnitWeightBefore(backends, k - 1);
    }
  }

  lemma WeightedEqualsRoundRobin(healthy: seq<UpfBackend>, next: nat)
    requires UnitWeights(healthy) && |healthy| < U32_MODULUS
    ensures SelectWeighted(healthy, next) == SelectRoundRobin(AddrsOf(healthy), next)
  {
    if healthy != [] {
      var m := |healthy|;
      var k := next % m;
      UnitWeightBefore(healthy, m);
      UnitWeightBefore(healthy, k);
      UnitWeightBefore(healthy, k + 1);
      OwnerOwnsItsInterval(healthy, k, 0, k);
      assert TotalWeight(healthy) == m;
      assert OwnerFrom(healthy, k, 0) == k;
    }
  }

  function WithStrategy(r: Run, strategy: Strategy): Run {
    match r
    case Start(backends, _) => Start(backends, strategy)
    case Then(before, e) => Then(WithStrategy(before, strategy), e)
  }

  function Restrategized(s: ProxyState, strategy: Strategy): ProxyState {
    s.(pool := s.pool.(strategy := strategy))
  }

  lemma RouteIgnoresEqualSelections(s: ProxyState, strategy: Strategy, m: Message)
    requires Select(Restrategized(s, strategy).pool, s.table) == Select(s.pool, s.table)
    ensures RouteMessage(Restrategized(s, strategy), m)
         == Routed(Restrategized(RouteMessage(s, m).state, strategy), RouteMessage(s, m).decision)
  {
    assert Balanced(Restrategized(s, strategy)) == Balanced(s);
    hide Balanced, RouteOf;
    match RouteOf(m.msgType)
    case NewSession => hide RouteByAffinity, RouteFallThrough;
    case ByAffinity => hide RouteNewSession, RouteFallThrough;
    case ByAffinityOrBalanced => hide RouteNewSession, RouteByAffinity;
    case _ => hide RouteNewSession, RouteByAffinity, RouteFallThrough;
  }

  lemma HandleIgnoresEqualSelections(s: ProxyState, strategy: Strategy, m: Message, failed: set<nat>)
    requires Select(Restrategized(s, strategy).pool, s.table) == Select(s.pool, s.table)
    ensures var out := HandleSmfRequest(s, m, failed);
      HandleSmfRequest(Restrategized(s, strategy), m, failed) == Outcome(Restrategized(out.state, strategy), out.sends)
  {
    hide Select, RouteMessage;
    RouteIgnoresEqualSelections(s, strategy, m);
  }

  lemma StepIgnoresEqualSelections(s: ProxyState, strategy: Strategy, e: Event)
    requires Select(Restrategized(s, strategy).pool, s.table) == Select(s.pool, s.table)
    ensures Step(Restrategized(s, strategy), e)
         == Outcome(Restrategized(Step(s, e).state, strategy), Step(s, e).sends)
  {
    hide Select, HandleSmfRequest, IsSmfRequest;
    if e.Receive? {
      if IsUpfRequest(e.msg.msgType) {
        hide HandleResponse;
      } else if !IsSmfRequest(e.msg.msgType) {
        hide HandleUpfRequest;
      } else {
        hide HandleResponse, HandleUpfRequest;
        var s1 := s.(stats := s.stats.MessageReceived(e.msg.msgType));
        HandleIgnoresEqualSelections(s1, strategy, e.msg, e.failed);
      }
    }
  }

  /** Every run under the weighted strategy sends, stores and counts exactly what it does under round robin. */
  lemma {:induction false} WeightedRunsAreRoundRobinRuns(r: Run)
    requires |InitialBackends(r)| < 0x1_0000_0000
    ensures var weighted, plain := WithStrategy(r, Weighted), WithStrategy(r, RoundRobin);
      && SendsOf(weighted) == SendsOf(plain)
      && After(weighted) == Restrategized(After(plain), Weighted)
      && InitialBackends(plain) == InitialBackends(r)
      && StrategyOf(plain) == RoundRobin
  {
    if r.Then? {
      WeightedRunsAreRoundRobinRuns(r.before);
      var plain := WithStrategy(r.before, RoundRobin);
      var s := After(plain);
      ReachablePoolsHaveUnitWeights(plain);
      StrategyNeverChanges(plain);
      var healthy := HealthyOf(s.pool.backends);
      forall b | b in healthy
        ensures b.weight == 1
      {
        HealthyExactly(s.pool.backends, b);
      }
      if healthy != [] {
        HealthyExactly(s.pool.backends, healthy[0]);
      }
      WeightedEqualsRoundRobin(healthy, s.pool.nextIndex);
      StepIgnoresEqualSelections(s, Weighted, r.event);
    }
  }
}
