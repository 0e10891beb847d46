/** Whose turn it is under round robin, in whole runs of the proxy. */
module Turns {
  import opened Types
  import opened Pool
  import opened Routing
  import opened Tickets
  import opened Fairness

  /** While the selectable addresses stay the same, the k-th pick is the address at the k-th next ticket. */
  lemma {:induction false} PickOfTicket(from: Run, r: Run, addrs: seq<SocketAddr>, k: nat)
    requires StrategyOf(r) == RoundRobin && SteadySince(from, r, addrs) && k < |PicksSince(from, r)|
    ensures addrs != []
    ensures PicksSince(from, r)[k]
         == addrs[(After(from).pool.nextIndex + k) % 0x1_0000_0000_0000_0000 % |addrs|]
  {
    hide Step, Choice, HealthyOf, Times, TimesRoundRobin;
    var s, picks := After(r.before), PicksSince(from, r.before);
    if k < |picks| {
      PickOfTicket(from, r.before, addrs, k);
    } else {
      PicksFollowTickets(from, r.before, addrs, SocketAddr(0, 0));
      StrategyNeverChanges(r.before);
      RoundRobinStep(s, r.event);
    }
  }

  /** No addition, removal or health update has happened. */
  ghost predicate PoolUntouched(r: Run) {
    r.Then? ==>
      PoolUntouched(r.before) && !r.event.AddBackend? && !r.event.RemoveBackend? && !r.event.UpdateHealth?
  }

  lemma {:induction false} FreshPoolIsSelectable(addrs: seq<SocketAddr>)
    ensures HealthyOf(NewBackends(addrs)) == NewBackends(addrs)
  {
    if addrs != [] {
      var front := addrs[..|addrs| - 1];
      FreshPoolIsSelectable(front);
      assert NewBackends(addrs)[..|front|] == NewBackends(front);
      assert NewBackends(addrs) == NewBackends(front) + [NewBackend(addrs[|front|])];
    }
  }

  lemma {:induction false} UntouchedIsSteady(r: Run)
    requires PoolUntouched(r)
    ensures After(r).pool.backends == NewBackends(InitialBackends(r))
    ensures SteadySince(Beginning(r), r, InitialBackends(r))
  {
    hide Step, HealthyOf;
    FreshPoolIsSelectable(InitialBackends(r));
    if r.Then? {
      UntouchedIsSteady(r.before);
      PoolAfterStep(After(r.before), r.event);
    }
  }

  lemma SomebodyIsPicked(r: Run, m: Message, failed: set<nat>)
    requires StrategyOf(r) == RoundRobin && PoolUntouched(r) && InitialBackends(r) != []
    requires m.msgType == SessionEstablishmentRequest
    ensures Balances(After(r), Receive(m, failed)) && Choice(After(r), Receive(m, failed)).Some?
  {
    MessageClasses(m.msgType);
    hide Step, Select, HealthyOf, RouteOf, IsSmfRequest;
    UntouchedIsSteady(r);
    FreshPoolIsSelectable(InitialBackends(r));
    StrategyNeverChanges(r);
    SelectedIsHealthyMember(After(r).pool, After(r).table);
  }

  /**
   * Turn by turn: under round robin, while nothing in the pool changes, an establishment that follows k balanced
   * requests is sent to the UPF at position k in the order of the initial backends, counted modulo 2^64 and their
   * number, and to nobody else.
   */
  lemma EstablishmentsTakeTurns(r: Run, m: Message, failed: set<nat>)
    requires StrategyOf(r) == RoundRobin && PoolUntouched(r) && InitialBackends(r) != []
    requires m.msgType == SessionEstablishmentRequest
    ensures var addrs, k := InitialBackends(r), After(r).stats.byLoadBalance;
      SendsOf(Then(r, Receive(m, failed))) == [Send(addrs[k % 0x1_0000_0000_0000_0000 % |addrs|], 0 !in failed)]
  {
    hide After, PicksSince, SteadySince, Choice, Balances, Beginning, PoolUntouched, SendsOf;
    var next := Then(r, Receive(m, failed));
    assert PoolUntouched(next) by { StaysUntouched(r, next.event); }
    SomebodyIsPicked(r, m, failed);
    UntouchedIsSteady(next);
    SentToPick(r, m, failed);
    TicketLedger(r);
    NextPick(r, next.event);
    StartsAtZero(next);
    PickOfTicket(Beginning(next), next, InitialBackends(r), |PicksSince(Beginning(r), r)|);
  }

  lemma StaysUntouched(r: Run, e: Event)
    requires PoolUntouched(r) && e.Receive?
    ensures PoolUntouched(Then(r, e))
  {
  }

  lemma SentToPick(r: Run, m: Message, failed: set<nat>)
    requires Balances(After(r), Receive(m, failed)) && Choice(After(r), Receive(m, failed)).Some?
    ensures SendsOf(Then(r, Receive(m, failed))) == [Send(Choice(After(r), Receive(m, failed)).value, 0 !in failed)]
  {
    hide Step, Choice, Balances;
    PickIsWhereItIsSent(After(r), Receive(m, failed));
  }

  lemma NextPick(r: Run, e: Event)
    requires Choice(After(r), e).Some?
    ensures PicksSince(Beginning(Then(r, e)), Then(r, e)) == PicksSince(Beginning(r), r) + [Choice(After(r), e).value]
  {
    hide After, Choice;
    BeginningIsSmaller(Then(r, e));
  }

  lemma StartsAtZero(r: Run)
    ensures After(Beginning(r)).pool.nextIndex == 0
  {
    BeginningIsSmaller(r);
  }

  // A UPF added to the pool

  /** Among any m consecutive tickets without a wrap, and any 2m - 1 with one, some ticket goes to the last position. */
  lemma LastPositionComesUp(first: nat, m: nat, n: nat) returns (k: nat)
    requires 0 < m <= 64 && first < 0x1_0000_0000_0000_0000
    requires (m <= n && first + m <= 0x1_0000_0000_0000_0000) || 2 * m - 1 <= n
    ensures k < n && (first + k) % 0x1_0000_0000_0000_0000 % m == m - 1
  {
    var q, r := SplitOf(first, m);
    k := m - 1 - r;
    if first + k < 0x1_0000_0000_0000_0000 {
      QuotientIsUnique(first + k, m, q, m - 1);
    } else {
      k := 0x1_0000_0000_0000_0000 - first + (m - 1);
      QuotientIsUnique(m - 1, m, 0, m - 1);
    }
  }

  lemma AddedUpfIsLast(r: Run, a: SocketAddr)
    requires |After(r).pool.backends| < 64 && a !in AddrsOf(After(r).pool.backends)
    ensures var before, after := After(r).pool.backends, After(Then(r, AddBackend(a))).pool.backends;
      && AddrsOf(HealthyOf(after)) == AddrsOf(HealthyOf(before)) + [a]
      && |HealthyOf(after)| <= 64
  {
    hide Step, HealthyOf, Added;
    AddedRecord(After(r).pool.backends, a);
    PoolAfterStep(After(r), AddBackend(a));
    HealthyExactly(After(Then(r, AddBackend(a))).pool.backends, NewBackend(a));
  }

  lemma LastComesUp(from: Run, later: Run, addrs: seq<SocketAddr>)
    requires StrategyOf(later) == RoundRobin && SteadySince(from, later, addrs) && 0 < |addrs| <= 64
    requires var n := |PicksSince(from, later)|;
      (|addrs| <= n && After(from).pool.nextIndex + |addrs| <= 0x1_0000_0000_0000_0000) || 2 * |addrs| - 1 <= n
    ensures addrs[|addrs| - 1] in PicksSince(from, later)
  {
    hide After, SteadySince, PicksSince;
    StrategyNeverChanges(from);
    var k := LastPositionComesUp(After(from).pool.nextIndex, |addrs|, |PicksSince(from, later)|);
    PickOfTicket(from, later, addrs, k);
  }

  /**
   * An address added with room to spare comes last among those that may be chosen. Under round robin, and while these
   * stay the same, the new UPF has had a request once as many were balanced over them as there are, or, if the counter
   * wraps in between, at the latest after one less than twice as many.
   */
  lemma AddedUpfGetsItsTurn(r: Run, a: SocketAddr, later: Run)
    requires StrategyOf(later) == RoundRobin
    requires |After(r).pool.backends| < 64 && a !in AddrsOf(After(r).pool.backends)
    requires SteadySince(Then(r, AddBackend(a)), later, AddrsOf(HealthyOf(After(r).pool.backends)) + [a])
    ensures var added := Then(r, AddBackend(a));
      var addrs, n := AddrsOf(HealthyOf(After(added).pool.backends)), |PicksSince(added, later)|;
      && addrs == AddrsOf(HealthyOf(After(r).pool.backends)) + [a]
      && ((|addrs| <= n && After(added).pool.nextIndex + |addrs| <= 0x1_0000_0000_0000_0000) || 2 * |addrs| - 1 <= n
          ==> a in PicksSince(added, later))
  {
    hide After, SteadySince, PicksSince, HealthyOf;
    var added := Then(r, AddBackend(a));
    AddedUpfIsLast(r, a);
    var addrs, n := AddrsOf(HealthyOf(After(added).pool.backends)), |PicksSince(added, later)|;
    if (|addrs| <= n && After(added).pool.nextIndex + |addrs| <= 0x1_0000_0000_0000_0000) || 2 * |addrs| - 1 <= n {
      LastComesUp(added, later, addrs);
    }
  }
}
