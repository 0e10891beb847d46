/** How long a pending request can live when the cleanup task runs on time. */
module Lifetime {
  import opened Types
  import opened Pool
  import opened Statistics
  import opened Routing
  import opened Delivery

  const CLEANUP_PERIOD: nat := 30

  /** When the cleanup task runs next: immediately at start, then every period. */
  function NextCleanup(r: Run): nat {
    match r
    case Start(_, _) => 0
    case Then(before, e) => NextCleanup(before) + if e.CleanupTick? then CLEANUP_PERIOD else 0
  }

  /** Cleanups happen exactly when they are due, and time does not pass a cleanup that is due. */
  ghost predicate Timely(r: Run) {
    r.Then? ==>
      && Timely(r.before)
      && (r.event.CleanupTick? ==> After(r.before).clock == NextCleanup(r.before))
      && After(r).clock <= NextCleanup(r)
  }

  lemma ClockAndPendingAfterStep(s: ProxyState, e: Event)
    ensures Step(s, e).state.clock == s.clock + if e.Elapse? then e.duration else 0
    ensures forall q :: q in Step(s, e).state.pending ==>
      || (q in s.pending && Step(s, e).state.pending[q].timestamp == s.pending[q].timestamp
          && (e.CleanupTick? ==> s.clock - s.pending[q].timestamp < CLEANUP_MAX_AGE))
      || (e.Receive? && Step(s, e).state.pending[q].timestamp == s.clock)
  {
    if e.Receive? {
      hide Step, Select;
      if IsSmfRequest(e.msg.msgType) {
        SmfRequestEffects(s, e.msg, e.failed);
      } else {
        NonSmfKeepsClock(s, e);
      }
      if IsRequest(e.msg.msgType) {
        RequestPending(s, e);
      } else {
        ResponsePending(s, e);
      }
    }
  }

  lemma NonSmfKeepsClock(s: ProxyState, e: Event)
    requires e.Receive? && !IsSmfRequest(e.msg.msgType)
    ensures Step(s, e).state.clock == s.clock
  {
  }

  /** Every entry is younger than the cleanup age plus one period when the next cleanup is due. */
  lemma {:induction false} YoungAtNextCleanup(r: Run)
    requires Timely(r)
    ensures After(r).clock <= NextCleanup(r) <= After(r).clock + CLEANUP_PERIOD
    ensures forall q :: q in After(r).pending ==>
      NextCleanup(r) - After(r).pending[q].timestamp < CLEANUP_MAX_AGE + CLEANUP_PERIOD
  {
    hide Step;
    if r.Then? {
      YoungAtNextCleanup(r.before);
      ClockAndPendingAfterStep(After(r.before), r.event);
    }
  }

  /**
   * Pending lifetime: with a cleanup every 30 time units and a maximum age of 60, whatever happens in between, at
   * every moment each pending entry stems from a request forwarded less than 90 units ago.
   */
  lemma PendingLifetime(r: Run, q: SeqNo)
    requires Timely(r) && q in After(r).pending
    ensures LatestExchange(r, q).Some?
    ensures After(r).clock < LatestExchange(r, q).value.at + 90
  {
    YoungAtNextCleanup(r);
    PendingTracksExchange(r, q);
  }

  /** The bound is exact: an entry can be 89 units old. */
  lemma LifetimeIsTight(upf: SocketAddr, smf: SocketAddr)
    ensures exists r: Run, q :: Timely(r) && q in After(r).pending
                             && After(r).clock == After(r).pending[q].timestamp + 89
  {
    var m := Message(HeartbeatRequest, None, 0, smf);
    var start := Start([upf], RoundRobin);
    var r0 := Then(start, CleanupTick);
    assert After(start).clock == NextCleanup(start) == 0 && Timely(start);
    assert Timely(r0) && After(r0).clock == 0 && NextCleanup(r0) == 30 && AddrsOf(After(r0).pool.backends) == [upf];
    var r1 := Then(r0, Elapse(1));
    assert Timely(r1) && After(r1).clock == 1 && NextCleanup(r1) == 30 && AddrsOf(After(r1).pool.backends) == [upf];
    var r2 := Then(r1, Receive(m, {}));
    SmfRequestEffects(After(r1), m, {});
    assert SendsOf(r2) == Attempts([upf], {}) == [Send(upf, true)];
    OneAttempt(Send(upf, true), ZERO);
    RequestPending(After(r1), Receive(m, {}));
    assert Timely(r2) && After(r2).clock == 1 && 0 in After(r2).pending && After(r2).pending[0].timestamp == 1;
    var r3 := OnePeriod(r2, 29, 0);
    var r4 := OnePeriod(r3, 30, 0);
    var r5 := Then(r4, Elapse(30));
    assert Timely(r5) && 0 in After(r5).pending && After(r5).clock == After(r5).pending[0].timestamp + 89;
  }

  /** An entry young enough outlives the wait for the next cleanup and the cleanup itself. */
  lemma OnePeriod(r: Run, wait: nat, q: SeqNo) returns (after: Run)
    requires Timely(r) && q in After(r).pending && After(r).clock + wait == NextCleanup(r)
    requires NextCleanup(r) - After(r).pending[q].timestamp < CLEANUP_MAX_AGE
    ensures Timely(after) && q in After(after).pending && After(after).pending[q] == After(r).pending[q]
    ensures After(after).clock == NextCleanup(r) && NextCleanup(after) == NextCleanup(r) + CLEANUP_PERIOD
  {
    var waited := Then(r, Elapse(wait));
    assert Timely(waited) && After(waited).pending == After(r).pending;
    after := Then(waited, CleanupTick);
  }
}
