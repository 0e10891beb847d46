/** The pool over whole runs, as an observer of additions, removals and health updates can tell it. */
module PoolHistory {
  import opened Types
  import opened Pool
  import opened Routing
  import opened Affinity

  /**
   * The health of the UPF at `addr` while it is in the pool. It starts, and each time it is added, as unknown; an
   * addition needs room and has no effect on a UPF that is there already; a removed UPF has no health to update.
   */
  function Known(r: Run, addr: SocketAddr): Option<HealthStatus> {
    match r
    case Start(backends, _) => if addr in backends then Some(Unknown) else None
    case Then(before, e) =>
      var known := Known(before, addr);
      match e
      case AddBackend(a) =>
        if a == addr && known == None && |After(before).pool.backends| < 64 then Some(Unknown) else known
      case RemoveBackend(a) => if a == addr then None else known
      case UpdateHealth(a, health) => if a == addr && known.Some? then Some(health) else known
      case _ => known
  }

  /** The pool has the UPF with this health, or does not have it. */
  ghost predicate Has(backends: seq<UpfBackend>, addr: SocketAddr, known: Option<HealthStatus>) {
    match known
    case None => addr !in AddrsOf(backends)
    case Some(health) => UpfBackend(addr, health, 1) in backends
  }

  lemma MemberAddr(backends: seq<UpfBackend>, b: UpfBackend)
    requires b in backends
    ensures b.addr in AddrsOf(backends)
  {
    var i :| 0 <= i < |backends| && backends[i] == b;
    assert AddrsOf(backends)[i] == b.addr;
  }

  lemma AdditionKeepsKnown(backends: seq<UpfBackend>, a: SocketAddr, addr: SocketAddr, known: Option<HealthStatus>)
    requires Has(backends, addr, known)
    ensures Has(Added(backends, a), addr,
                if a == addr && known == None && |backends| < 64 then Some(Unknown) else known)
  {
    AddedMembership(backends, a, addr);
    if |backends| < 64 && a !in AddrsOf(backends) {
      AddedRecord(backends, a);
    }
    if known.Some? {
      MemberAddr(backends, UpfBackend(addr, known.value, 1));
    }
  }

  lemma RemovalKeepsKnown(backends: seq<UpfBackend>, a: SocketAddr, addr: SocketAddr, known: Option<HealthStatus>)
    requires Has(backends, addr, known)
    ensures Has(Removed(backends, a), addr, if a == addr then None else known)
  {
    RemovedAddrs(backends, a);
    if known.Some? && a != addr {
      var positions := RemovedInPoolOrder(backends, a);
      var i :| 0 <= i < |backends| && backends[i] == UpfBackend(addr, known.value, 1);
      assert i in positions;
      var k :| 0 <= k < |positions| && positions[k] == i;
      assert Removed(backends, a)[k] == backends[i];
    }
  }

  lemma UpdateKeepsKnown(backends: seq<UpfBackend>, a: SocketAddr, health: HealthStatus, addr: SocketAddr,
                         known: Option<HealthStatus>)
    requires Has(backends, addr, known) && Distinct(AddrsOf(backends))
    ensures Has(HealthUpdated(backends, a, health), addr, if a == addr && known.Some? then Some(health) else known)
  {
    HealthUpdatedKeepsAddrs(backends, a, health);
    if known.Some? {
      var i :| 0 <= i < |backends| && backends[i] == UpfBackend(addr, known.value, 1);
      assert AddrsOf(backends)[i] == addr;
      if a == addr {
        forall j | 0 <= j < i
          ensures backends[j].addr != a
        {
          assert AddrsOf(backends)[j] != AddrsOf(backends)[i];
        }
        HealthUpdatedAt(backends, a, health, i);
        assert HealthUpdated(backends, a, health)[i] == UpfBackend(addr, health, 1);
      } else {
        OtherRecordStays(backends, a, health, i);
      }
    }
  }

  lemma {:induction false} OtherRecordStays(backends: seq<UpfBackend>, a: SocketAddr, health: HealthStatus, i: nat)
    requires i < |backends| && backends[i].addr != a
    ensures backends[i] in HealthUpdated(backends, a, health)
  {
    if backends[0].addr == a {
      assert HealthUpdated(backends, a, health)[i] == backends[i];
    } else if i > 0 {
      OtherRecordStays(backends[1..], a, health, i - 1);
    }
  }

  /**
   * In every run from distinct backends the pool is what its events say: it has the UPFs that are known, each with the
   * health last reported since it was added, and weight one.
   */
  lemma {:induction false} PoolIsWhatEventsSay(r: Run, addr: SocketAddr)
    requires Distinct(InitialBackends(r))
    ensures Has(After(r).pool.backends, addr, Known(r, addr))
  {
    if r.Then? {
      hide Step, Has;
      PoolIsWhatEventsSay(r.before, addr);
      DistinctPoolStaysDistinct(r.before);
      PoolAfterStep(After(r.before), r.event);
      var backends, known := After(r.before).pool.backends, Known(r.before, addr);
      match r.event
      case AddBackend(a) => AdditionKeepsKnown(backends, a, addr, known);
      case RemoveBackend(a) => RemovalKeepsKnown(backends, a, addr, known);
      case UpdateHealth(a, health) => UpdateKeepsKnown(backends, a, health, addr, known);
      case _ =>
    } else {
      FreshPoolHas(r.backends, addr);
    }
  }

  lemma FreshPoolHas(addrs: seq<SocketAddr>, addr: SocketAddr)
    ensures Has(NewBackends(addrs), addr, if addr in addrs then Some(Unknown) else None)
  {
    if addr in addrs {
      var i :| 0 <= i < |addrs| && addrs[i] == addr;
      assert NewBackends(addrs)[i] == UpfBackend(addr, Unknown, 1);
    }
  }

  /** No UPF has two records. */
  lemma OneRecordEach(backends: seq<UpfBackend>, b: UpfBackend, c: UpfBackend)
    requires Distinct(AddrsOf(backends)) && b in backends && c in backends && b.addr == c.addr
    ensures b == c
  {
    var i :| 0 <= i < |backends| && backends[i] == b;
    var j :| 0 <= j < |backends| && backends[j] == c;
    assert AddrsOf(backends)[i] == AddrsOf(backends)[j];
  }

  /**
   * Who may be picked: in every run from distinct backends, a UPF may be chosen for new sessions exactly while it is
   * known as healthy or of unknown health. Only such a UPF is ever picked; and unless the strategy is least-sessions,
   * none is picked only when there is no such UPF.
   */
  lemma SelectableExactlyWhenKnown(r: Run, addr: SocketAddr)
    requires Distinct(InitialBackends(r))
    ensures var s := After(r);
      && (addr in AddrsOf(HealthyOf(s.pool.backends)) <==> Known(r, addr) in {Some(Healthy), Some(Unknown)})
      && (Select(s.pool, s.table).choice == Some(addr) ==> Known(r, addr) in {Some(Healthy), Some(Unknown)})
      && (Known(r, addr) in {Some(Healthy), Some(Unknown)} && StrategyOf(r) != LeastSessions ==>
            Select(s.pool, s.table).choice.Some?)
  {
    var s := After(r);
    PoolIsWhatEventsSay(r, addr);
    DistinctPoolStaysDistinct(r);
    StrategyNeverChanges(r);
    SelectedIsHealthyMember(s.pool, s.table);
    SelectableMembers(s.pool.backends, addr, Known(r, addr));
  }

  lemma SelectableMembers(backends: seq<UpfBackend>, addr: SocketAddr, known: Option<HealthStatus>)
    requires Distinct(AddrsOf(backends)) && Has(backends, addr, known)
    ensures addr in AddrsOf(HealthyOf(backends)) <==> known in {Some(Healthy), Some(Unknown)}
    ensures forall b :: b in backends && b.addr == addr && Selectable(b) ==> known in {Some(Healthy), Some(Unknown)}
    ensures known in {Some(Healthy), Some(Unknown)} ==> HealthyOf(backends) != []
  {
    forall b | b in backends && b.addr == addr
      ensures known == Some(b.health)
    {
      MemberAddr(backends, b);
      OneRecordEach(backends, b, UpfBackend(addr, known.value, 1));
    }
    var healthy := HealthyOf(backends);
    if addr in AddrsOf(healthy) {
      var i :| 0 <= i < |healthy| && healthy[i].addr == addr;
      HealthyExactly(backends, healthy[i]);
    }
    if known in {Some(Healthy), Some(Unknown)} {
      HealthyExactly(backends, UpfBackend(addr, known.value, 1));
      MemberAddr(healthy, UpfBackend(addr, known.value, 1));
    }
  }
}
