/** How evenly least-sessions keeps the session counts, over whole runs. */
module Balance {
  import opened Types
  import opened Sessions
  import opened Pool
  import opened Routing
  import opened Delivery
  import opened Fairness
  import opened Ledgers

  /** None of the addresses has more than `gap` sessions above any other. */
  ghost predicate Within(table: Table, addrs: seq<SocketAddr>, gap: nat) {
    forall a, b :: a in addrs && b in addrs ==> SessionsOn(table, a) <= SessionsOn(table, b) + gap
  }

  lemma LeastSessionsPicksMinimum(pool: PoolState, table: Table, addr: SocketAddr)
    requires pool.strategy == LeastSessions && Select(pool, table).choice.Some?
    requires addr in AddrsOf(HealthyOf(pool.backends))
    ensures SessionsOn(table, Select(pool, table).choice.value) <= SessionsOn(table, addr)
  {
    var healthy := HealthyOf(pool.backends);
    LeastIsFirstMinimum(healthy, table, |healthy|);
  }

  /**
   * What one step does to the gap. Binding a fresh SEID never raises it above the larger of one and what it was; a
   * deletion adds at most one to it; a re-binding, which also takes a session away, adds at most one to the larger of
   * one and what it was; nothing else changes a session count.
   */
  lemma StepKeepsGap(s: ProxyState, e: Event, gap: nat)
    requires s.pool.strategy == LeastSessions
    requires Within(s.table, AddrsOf(HealthyOf(s.pool.backends)), gap)
    ensures Within(Step(s, e).state.table, AddrsOf(HealthyOf(s.pool.backends)),
                   if Unbinds(s, e) then gap + 1
                   else if Rebinds(s, e) then Max(gap, 1) + 1
                   else if Choice(s, e).Some? && e.msg.seid.Some? then Max(gap, 1)
                   else gap)
  {
    hide Step, Select, HealthyOf, SessionsOn;
    TableAfterStep(s, e);
    var addrs, after := AddrsOf(HealthyOf(s.pool.backends)), Step(s, e).state.table;
    var gap' := if Unbinds(s, e) then gap + 1
                else if Rebinds(s, e) then Max(gap, 1) + 1
                else if Choice(s, e).Some? && e.msg.seid.Some? then Max(gap, 1)
                else gap;
    forall a, b | a in addrs && b in addrs
      ensures SessionsOn(after, a) <= SessionsOn(after, b) + gap'
    {
      if Choice(s, e).Some? && e.msg.seid.Some? {
        var info := SessionInfo(Choice(s, e).value, e.msg.src);
        LeastSessionsPicksMinimum(s.pool, s.table, a);
        LeastSessionsPicksMinimum(s.pool, s.table, b);
        CountAfterInsert(s.table, e.msg.seid.value, info, a);
        CountAfterInsert(s.table, e.msg.seid.value, info, b);
      } else if Unbinds(s, e) {
        CountAfterRemove(s.table, e.msg.seid.value, a);
        CountAfterRemove(s.table, e.msg.seid.value, b);
      }
    }
  }

  /**
   * Least-sessions balance: while the selectable backends stay the same, no two of them ever differ by more than one
   * session plus one for each deletion and each re-binding of a live SEID so far.
   */
  lemma {:induction false} LeastSessionsStaysBalanced(r: Run, addrs: seq<SocketAddr>)
    requires StrategyOf(r) == LeastSessions && SteadySince(Beginning(r), r, addrs)
    ensures Within(After(r).table, addrs, 1 + After(r).stats.deleted + Occurrences(r, Rebinds))
  {
    hide Step, Select, HealthyOf, SessionsOn;
    BeginningIsSmaller(r);
    if r.Then? {
      var s := After(r.before);
      LeastSessionsStaysBalanced(r.before, addrs);
      StrategyNeverChanges(r.before);
      TableAfterStep(s, r.event);
      var gap := 1 + s.stats.deleted + Occurrences(r.before, Rebinds);
      StepKeepsGap(s, r.event, gap);
    } else {
      EmptyTableIsBalanced(addrs);
    }
  }

  lemma EmptyTableIsBalanced(addrs: seq<SocketAddr>)
    ensures Within(map[], addrs, 1)
  {
  }

  /**
   * Under least-sessions an establishment goes, if anywhere, to the first of the addresses that may be chosen, in pool
   * order, among those with the fewest sessions.
   */
  lemma EstablishmentGoesToFirstMinimum(r: Run, m: Message, failed: set<nat>) returns (i: nat)
    requires StrategyOf(r) == LeastSessions && m.msgType == SessionEstablishmentRequest
    requires SendsOf(Then(r, Receive(m, failed))) != []
    ensures var addrs, table := AddrsOf(HealthyOf(After(r).pool.backends)), After(r).table;
      && i < |addrs| && SendsOf(Then(r, Receive(m, failed))) == [Send(addrs[i], 0 !in failed)]
      && (forall j :: 0 <= j < i ==> SessionsOn(table, addrs[i]) < SessionsOn(table, addrs[j]))
      && (forall j :: i < j < |addrs| ==> SessionsOn(table, addrs[i]) <= SessionsOn(table, addrs[j]))
  {
    var s := After(r);
    MessageClasses(m.msgType);
    hide Step, Select, HealthyOf, SessionsOn, RouteOf, IsSmfRequest;
    StrategyNeverChanges(r);
    PickIsWhereItIsSent(s, Receive(m, failed));
    i := LeastSessionsPicksFirstMinimum(s.pool, s.table);
  }
}
