/** Where responses go, and how many of them each forwarded request can bring back. */
module Delivery {
  import opened Types
  import opened Pending
  import opened Pool
  import opened Statistics
  import opened Routing
  import opened Affinity

  /**
   * The observer's record of the latest forwarded request with some sequence number: its sender, whether it went to
   * every UPF, when, how many responses with that sequence number were delivered since, and the largest pool since.
   */
  datatype Exchange =
    Exchange(origin: SocketAddr, toEveryUpf: bool, at: nat, delivered: nat, largestPool: nat)

  predicate IsRequest(t: MsgType) {
    IsSmfRequest(t) || IsUpfRequest(t)
  }

  function Max(a: nat, b: nat): nat {
    if a <= b then b else a
  }

  function PoolSize(r: Run): nat {
    |After(r).pool.backends|
  }

  /** A request counts as forwarded when at least one of its sends succeeded. */
  function LatestExchange(r: Run, q: SeqNo): Option<Exchange> {
    match r
    case Start(_, _) => None
    case Then(before, e) =>
      var known := match LatestExchange(before, q)
        case None => None
        case Some(x) => Some(x.(largestPool := Max(x.largestPool, PoolSize(r))));
      if !e.Receive? || e.msg.sequence != q || Delivered(SendsOf(r)) == 0 then known
      else if IsRequest(e.msg.msgType) then
        Some(Exchange(e.msg.src, IsSmfRequest(e.msg.msgType) && RouteOf(e.msg.msgType) == ToEveryUpf,
                      After(before).clock, 0, PoolSize(r)))
      else if known == None then None
      else Some(known.value.(delivered := known.value.delivered + Delivered(SendsOf(r))))
  }

  /** How a pending entry relates to the exchange the observer saw. */
  ghost predicate Tracks(entry: RequestInfo, x: Exchange, poolSize: nat) {
    && entry.origin == x.origin
    && entry.isBroadcast == x.toEveryUpf
    && entry.timestamp == x.at
    && x.delivered <= entry.responses
    && poolSize <= x.largestPool
    && x.delivered < if x.toEveryUpf then x.largestPool else 1
  }

  function Allowance(x: Exchange): nat {
    if x.toEveryUpf then x.largestPool else 1
  }

  lemma RequestPending(s: ProxyState, e: Event)
    requires e.Receive? && IsRequest(e.msg.msgType)
    ensures var q, out := e.msg.sequence, Step(s, e);
      && (Delivered(out.sends) > 0 ==>
            out.state.pending == s.pending[q := RequestInfo(e.msg.src, s.clock,
              IsSmfRequest(e.msg.msgType) && RouteOf(e.msg.msgType) == ToEveryUpf, 0, IsUpfRequest(e.msg.msgType))])
      && (Delivered(out.sends) == 0 ==> out.state.pending == s.pending || out.state.pending == s.pending - {q})
      && (Delivered(out.sends) == 0 && out.sends != [] ==> out.state.pending == s.pending - {q})
      && (out.sends == [] ==>
            out.state.pending == if RouteOf(e.msg.msgType) == ToEveryUpf then s.pending - {q} else s.pending)
      && Delivered(out.sends) <= |out.sends|
      && (out.sends != [] && IsSmfRequest(e.msg.msgType) && RouteOf(e.msg.msgType) == ToEveryUpf ==>
            |s.pool.backends| > 0)
  {
    assert IsUpfRequest(e.msg.msgType) ==> RouteOf(e.msg.msgType) != ToEveryUpf;
    hide Select, RouteMessage, RouteOf;
    var s1 := s.(stats := s.stats.MessageReceived(e.msg.msgType));
    if IsSmfRequest(e.msg.msgType) {
      RouteEffects(s1, e.msg);
      SmfRequestEffects(s, e.msg, e.failed);
    }
    DeliveredBound(Step(s, e).sends);
  }

  lemma {:induction false} DeliveredBound(sends: seq<Send>)
    ensures Delivered(sends) <= |sends|
  {
    if sends != [] {
      DeliveredBound(sends[..|sends| - 1]);
    }
  }

  lemma ResponsePending(s: ProxyState, e: Event)
    requires e.Receive? && !IsRequest(e.msg.msgType)
    ensures var q, out := e.msg.sequence, Step(s, e);
      if q !in s.pending then out.sends == [] && out.state.pending == s.pending else
      var counted := s.pending[q].(responses := s.pending[q].responses + 1);
      && out.sends == [Send(counted.origin, 0 !in e.failed)]
      && Delivered(out.sends) == (if 0 in e.failed then 0 else 1)
      && out.state.pending == if 0 in e.failed || (counted.isBroadcast && counted.responses < |s.pool.backends|)
                              then s.pending[q := counted] else s.pending - {q}
  {
    if e.msg.sequence in s.pending {
      OneAttempt(Step(s, e).sends[0], s.stats);
    }
  }

  /** Every pending entry tracks its exchange, and no exchange ever exceeds its allowance. */
  lemma {:induction false} PendingTracksExchange(r: Run, q: SeqNo)
    ensures var x := LatestExchange(r, q);
      && (x.Some? ==> x.value.delivered <= Allowance(x.value) && PoolSize(r) <= x.value.largestPool)
      && (q in After(r).pending ==> x.Some? && Tracks(After(r).pending[q], x.value, PoolSize(r)))
  {
    hide Step, Select;
    if r.Then? {
      var s, e := After(r.before), r.event;
      PendingTracksExchange(r.before, q);
      PoolAfterStep(s, e);
      if e.Receive? {
        if IsRequest(e.msg.msgType) {
          RequestPending(s, e);
        } else {
          ResponsePending(s, e);
        }
      } else {
        assert Step(s, e).sends == [] && (q in Step(s, e).state.pending ==>
          q in s.pending && Step(s, e).state.pending[q] == s.pending[q]) by { OtherEventsOnlyDrop(s, e); }
      }
    }
  }

  lemma OtherEventsOnlyDrop(s: ProxyState, e: Event)
    requires !e.Receive?
    ensures Step(s, e).sends == []
    ensures forall q :: q in Step(s, e).state.pending ==> q in s.pending && Step(s, e).state.pending[q] == s.pending[q]
  {
  }

  /**
   * Response delivery: in every run a response is sent, if at all, to the sender of the latest forwarded request with
   * its sequence number, and to nobody else; it is sent exactly when an entry is pending, and counted as dropped
   * otherwise. What that request brings back never exceeds one response, or the largest pool since if it went to
   * every UPF; failed sends do not change that.
   */
  lemma ResponseDelivery(r: Run, m: Message, failed: set<nat>)
    requires !IsRequest(m.msgType)
    ensures var next, x := Then(r, Receive(m, failed)), LatestExchange(r, m.sequence);
      && (SendsOf(next) != [] ==> x.Some? && SendsOf(next) == [Send(x.value.origin, 0 !in failed)])
      && (SendsOf(next) != [] <==> m.sequence in After(r).pending)
      && After(next).stats.dropped == After(r).stats.dropped + (if SendsOf(next) == [] then 1 else 0)
      && (x.Some? ==> LatestExchange(next, m.sequence).Some?
                      && LatestExchange(next, m.sequence).value.delivered <= Allowance(x.value))
  {
    var s, next := After(r), Then(r, Receive(m, failed));
    PendingTracksExchange(r, m.sequence);
    PendingTracksExchange(next, m.sequence);
    ResponsePending(s, next.event);
    PoolAfterStep(s, next.event);
  }

  ghost predicate FixedPoolSize(r: Run, size: nat) {
    PoolSize(r) == size && (r.Then? ==> FixedPoolSize(r.before, size))
  }

  /** With a pool of fixed size B every broadcast brings back at most B responses, and every other request one. */
  lemma {:induction false} FixedPoolAllowance(r: Run, q: SeqNo, size: nat)
    requires FixedPoolSize(r, size)
    ensures var x := LatestExchange(r, q);
      x.Some? ==> x.value.largestPool == size && x.value.delivered <= if x.value.toEveryUpf then size else 1
  {
    hide Step;
    PendingTracksExchange(r, q);
    if r.Then? {
      FixedPoolAllowance(r.before, q, size);
    }
  }

  /** Since `from`, the entry for `q` has always been pending and no other request with `q` was forwarded. */
  ghost predicate UndisturbedSince(from: Run, r: Run, q: SeqNo) {
    && q in After(r).pending
    && (r == from
        || (r.Then?
            && !(r.event.Receive? && r.event.msg.sequence == q && IsRequest(r.event.msg.msgType)
                 && Delivered(SendsOf(r)) > 0)
            && UndisturbedSince(from, r.before, q)))
  }

  lemma {:induction false} OriginPersists(from: Run, r: Run, q: SeqNo)
    requires UndisturbedSince(from, r, q)
    ensures LatestExchange(r, q).Some? && LatestExchange(from, q).Some?
    ensures LatestExchange(r, q).value.origin == LatestExchange(from, q).value.origin
  {
    hide Step;
    PendingTracksExchange(r, q);
    if r != from {
      OriginPersists(from, r.before, q);
    }
  }

  /**
   * Reverse flow, second half: the response to a forwarded session report goes back to the reporting UPF, the one its
   * SEID was bound to, for as long as the pending entry is neither overwritten, removed nor timed out.
   */
  lemma ReportResponseReturnsToUpf(r: Run, report: Message, lost: set<nat>, later: Run, m: Message, failed: set<nat>)
    requires report.msgType == SessionReportRequest && !IsRequest(m.msgType) && m.sequence == report.sequence
    requires SendsOf(Then(r, Receive(report, lost))) != [] && 0 !in lost
    requires UndisturbedSince(Then(r, Receive(report, lost)), later, report.sequence)
    ensures report.seid.Some? && LatestBinding(r, report.seid.value).Some?
    ensures SendsOf(Then(later, Receive(m, failed)))
         == [Send(LatestBinding(r, report.seid.value).value.upf, 0 !in failed)]
  {
    hide Step;
    var sent := Then(r, Receive(report, lost));
    ReportGoesToBoundSmf(r, report, lost);
    OneAttempt(SendsOf(sent)[0], ZERO);
    OriginPersists(sent, later, report.sequence);
    ResponseDelivery(later, m, failed);
  }

  // Exactly which responses are delivered

  /** The responses with sequence number `q` that arrived in the part of `r` after its prefix `from`. */
  function Answers(from: Run, r: Run, q: SeqNo): nat {
    if r == from || r.Start? then 0 else
    Answers(from, r.before, q) + if IsAnswer(r.event, q) then 1 else 0
  }

  predicate IsAnswer(e: Event, q: SeqNo) {
    e.Receive? && e.msg.sequence == q && !IsRequest(e.msg.msgType)
  }

  predicate IsRequestFor(e: Event, q: SeqNo) {
    e.Receive? && e.msg.sequence == q && IsRequest(e.msg.msgType)
  }

  /** Since `from`, no other request with `q` was forwarded. */
  ghost predicate LatestSince(from: Run, r: Run, q: SeqNo) {
    r == from || (r.Then? && LatestSince(from, r.before, q) && !(IsRequestFor(r.event, q) && Delivered(SendsOf(r)) > 0))
  }

  /**
   * Nothing since `from` has closed the exchange opened there at time `at`: no cleanup found it too old, no request
   * with its number was tried in vain, and no response that could be forwarded met a number of UPFs it completes.
   */
  ghost predicate StaysOpen(from: Run, r: Run, q: SeqNo, toEveryUpf: bool, at: nat) {
    r == from
    || (r.Then?
        && StaysOpen(from, r.before, q, toEveryUpf, at)
        && (r.event.CleanupTick? ==> After(r.before).clock - at < 60)
        && (IsRequestFor(r.event, q) ==> SendsOf(r) == [] && RouteOf(r.event.msg.msgType) != ToEveryUpf)
        && (IsAnswer(r.event, q) && 0 !in r.event.failed ==>
              Answers(from, r, q) < if toEveryUpf then PoolSize(r.before) else 1))
  }

  lemma OtherPending(s: ProxyState, e: Event, q: SeqNo)
    requires !e.Receive?
    ensures Step(s, e).sends == []
    ensures q in Step(s, e).state.pending
       <==> q in s.pending && (e.CleanupTick? ==> s.clock - s.pending[q].timestamp < CLEANUP_MAX_AGE)
    ensures q in Step(s, e).state.pending ==> Step(s, e).state.pending[q] == s.pending[q]
  {
  }

  /** The part of one step that touches the entry of `q`, when no request with `q` is forwarded. */
  lemma EntryAfterStep(s: ProxyState, e: Event, q: SeqNo)
    requires !(IsRequestFor(e, q) && Delivered(Step(s, e).sends) > 0)
    ensures var before, out := s.pending, Step(s, e);
      && (q in out.state.pending <==>
          && q in before
          && (e.CleanupTick? ==> s.clock - before[q].timestamp < CLEANUP_MAX_AGE)
          && (IsRequestFor(e, q) ==> out.sends == [] && RouteOf(e.msg.msgType) != ToEveryUpf)
          && (IsAnswer(e, q) && 0 !in e.failed ==>
                before[q].responses + 1 < if before[q].isBroadcast then |s.pool.backends| else 1))
      && (q in out.state.pending ==>
            out.state.pending[q] == before[q].(responses := before[q].responses + if IsAnswer(e, q) then 1 else 0))
  {
    if !e.Receive? {
      OtherPending(s, e, q);
    } else if IsRequest(e.msg.msgType) {
      hide Step, Select, RouteOf, IsSmfRequest;
      RequestPending(s, e);
    } else {
      hide Step, Select, RouteOf, IsSmfRequest;
      ResponsePending(s, e);
    }
  }

  /** The entry that a forwarded request leaves, `answers` responses later. */
  function EntryOf(r: Run, m: Message, answers: nat): RequestInfo {
    RequestInfo(m.src, After(r).clock, RouteOf(m.msgType) == ToEveryUpf, answers, IsUpfRequest(m.msgType))
  }

  lemma RequestOrigins(t: MsgType)
    ensures IsRequest(t) <==> IsSmfRequest(t) || IsUpfRequest(t)
    ensures IsUpfRequest(t) ==> RouteOf(t) != ToEveryUpf && !IsSmfRequest(t)
  {
  }

  lemma EntryOfForwarded(r: Run, m: Message, failed: set<nat>)
    requires IsRequest(m.msgType) && Delivered(SendsOf(Then(r, Receive(m, failed)))) > 0
    ensures var after := After(Then(r, Receive(m, failed))).pending;
      m.sequence in after && after[m.sequence] == EntryOf(r, m, 0)
  {
    hide Step, RouteOf, IsSmfRequest, IsUpfRequest, IsRequest, Delivered;
    RequestOrigins(m.msgType);
    RequestPending(After(r), Receive(m, failed));
  }

  /** Until another request with its number is forwarded, a forwarded request is pending exactly while it stays open. */
  lemma {:induction false} PendingWhileOpen(r: Run, m: Message, failed: set<nat>, later: Run)
    requires IsRequest(m.msgType) && Delivered(SendsOf(Then(r, Receive(m, failed)))) > 0
    requires LatestSince(Then(r, Receive(m, failed)), later, m.sequence)
    ensures var sent, q := Then(r, Receive(m, failed)), m.sequence;
      && (q in After(later).pending <==> StaysOpen(sent, later, q, RouteOf(m.msgType) == ToEveryUpf, After(r).clock))
      && (q in After(later).pending ==> After(later).pending[q] == EntryOf(r, m, Answers(sent, later, q)))
  {
    if later == Then(r, Receive(m, failed)) {
      EntryOfForwarded(r, m, failed);
    } else {
      hide Step, RouteOf, IsRequest, IsUpfRequest, Delivered;
      PendingWhileOpen(r, m, failed, later.before);
      EntryAfterStep(After(later.before), later.event, m.sequence);
    }
  }

  /**
   * Exact delivery: after any forwarded request, and until another with its number is forwarded, a response with its
   * number is sent on, to the request's sender, exactly when the exchange is still open; otherwise it is dropped.
   */
  lemma DeliveredExactlyWhileOpen(r: Run, m: Message, failed: set<nat>, later: Run, answer: Message, lost: set<nat>)
    requires IsRequest(m.msgType) && Delivered(SendsOf(Then(r, Receive(m, failed)))) > 0
    requires LatestSince(Then(r, Receive(m, failed)), later, m.sequence)
    requires !IsRequest(answer.msgType) && answer.sequence == m.sequence
    ensures SendsOf(Then(later, Receive(answer, lost)))
         == if StaysOpen(Then(r, Receive(m, failed)), later, m.sequence, RouteOf(m.msgType) == ToEveryUpf,
                         After(r).clock)
            then [Send(m.src, 0 !in lost)] else []
  {
    PendingWhileOpen(r, m, failed, later);
    ResponsePending(After(later), Receive(answer, lost));
  }

  /**
   * Since `from`, the pool has kept its size, every response with `q` could be sent on, no cleanup found the entry too
   * old, and `q` was not used again.
   */
  ghost predicate CalmSince(from: Run, r: Run, q: SeqNo, size: nat, at: nat) {
    && PoolSize(r) == size
    && (r == from
        || (r.Then?
            && CalmSince(from, r.before, q, size, at)
            && !IsRequestFor(r.event, q)
            && (IsAnswer(r.event, q) ==> 0 !in r.event.failed)
            && (r.event.CleanupTick? ==> After(r.before).clock - at < 60)))
  }

  lemma {:induction false} CalmIsOpen(from: Run, r: Run, q: SeqNo, toEveryUpf: bool, size: nat, at: nat)
    requires CalmSince(from, r, q, size, at)
    ensures LatestSince(from, r, q)
    ensures StaysOpen(from, r, q, toEveryUpf, at)
       <==> Answers(from, r, q) == 0 || Answers(from, r, q) < if toEveryUpf then size else 1
  {
    hide Step, Select;
    if r != from {
      CalmIsOpen(from, r.before, q, toEveryUpf, size, at);
    }
  }

  /**
   * A broadcast that reached at least one of B UPFs brings back exactly the first B responses with its number, each to
   * its sender, and drops every later one; its entry goes with the B-th. Any other messages, time, health and pool
   * changes may come in between, as long as the pool keeps its size, the responses can be forwarded, no cleanup finds
   * the entry 60 units old and the number is not used again.
   */
  lemma BroadcastCollectsAll(r: Run, m: Message, failed: set<nat>, later: Run, answer: Message, lost: set<nat>)
    requires IsSmfRequest(m.msgType) && RouteOf(m.msgType) == ToEveryUpf
    requires Delivered(SendsOf(Then(r, Receive(m, failed)))) > 0
    requires CalmSince(Then(r, Receive(m, failed)), later, m.sequence, PoolSize(r), After(r).clock)
    requires !IsRequest(answer.msgType) && answer.sequence == m.sequence
    ensures var answers, size := Answers(Then(r, Receive(m, failed)), later, m.sequence), PoolSize(r);
      && (m.sequence in After(later).pending <==> answers < size)
      && SendsOf(Then(later, Receive(answer, lost))) == if answers < size then [Send(m.src, 0 !in lost)] else []
  {
    var sent := Then(r, Receive(m, failed));
    hide Step, Select, RouteOf, IsSmfRequest;
    RequestPending(After(r), sent.event);
    CalmIsOpen(sent, later, m.sequence, true, PoolSize(r), After(r).clock);
    PendingWhileOpen(r, m, failed, later);
    DeliveredExactlyWhileOpen(r, m, failed, later, answer, lost);
  }

  lemma RemovingTheSecond(a: SocketAddr, b: SocketAddr)
    requires a != b
    ensures AddrsOf(NewBackends([a, b])) == [a, b]
    ensures |Removed(NewBackends([a, b]), b)| == 1
  {
    var both := NewBackends([a, b]);
    assert both[..1][..0] == [] && both[..1][0].addr == a;
    assert |Removed(both[..1], b)| == 1;
  }

  lemma HeartbeatToTwo(a: SocketAddr, b: SocketAddr, m: Message)
    requires a != b && m.msgType == HeartbeatRequest
    ensures var sent := Then(Start([a, b], RoundRobin), Receive(m, {}));
      && SendsOf(sent) == [Send(a, true), Send(b, true)] && Delivered(SendsOf(sent)) > 0
      && PoolSize(Then(sent, RemoveBackend(b))) == 1
  {
    var start := Start([a, b], RoundRobin);
    var sent := Then(start, Receive(m, {}));
    RemovingTheSecond(a, b);
    SmfRequestEffects(After(start), m, {});
    assert Targets(After(start), m) == [a, b];
    hide Step, Select, RouteOf, IsSmfRequest, Removed;
    assert SendsOf(sent) == [Send(a, true)] + [Send(b, true)];
    OneMoreSend([Send(a, true)], Send(b, true), ZERO);
    PoolAfterStep(After(start), sent.event);
    PoolAfterStep(After(sent), RemoveBackend(b));
  }

  /** When the pool shrinks during a broadcast, a response that was asked for can be dropped. */
  lemma ShrinkingLosesAResponse(a: SocketAddr, b: SocketAddr, m: Message, answer: Message, lost: set<nat>)
    requires a != b && m.msgType == HeartbeatRequest && !IsRequest(answer.msgType) && answer.sequence == m.sequence
    ensures var sent := Then(Start([a, b], RoundRobin), Receive(m, {}));
      var answered := Then(Then(sent, RemoveBackend(b)), Receive(answer, {}));
      && SendsOf(sent) == [Send(a, true), Send(b, true)]
      && SendsOf(answered) == [Send(m.src, true)]
      && SendsOf(Then(answered, Receive(answer, lost))) == []
  {
    var start, q := Start([a, b], RoundRobin), m.sequence;
    var sent := Then(start, Receive(m, {}));
    var shrunk := Then(sent, RemoveBackend(b));
    var answered := Then(shrunk, Receive(answer, {}));
    HeartbeatToTwo(a, b, m);
    assert IsRequest(m.msgType) && RouteOf(m.msgType) == ToEveryUpf && After(start).clock == 0;
    hide Step, Select, RouteOf, IsRequest, After, SendsOf;
    assert StaysOpen(sent, sent, q, true, 0) && LatestSince(sent, sent, q);
    assert StaysOpen(sent, shrunk, q, true, 0) && LatestSince(sent, shrunk, q);
    assert Answers(sent, sent, q) == 0 && Answers(sent, shrunk, q) == 0 && Answers(sent, answered, q) == 1;
    assert !StaysOpen(sent, answered, q, true, 0) && LatestSince(sent, answered, q);
    DeliveredExactlyWhileOpen(start, m, {}, shrunk, answer, {});
    DeliveredExactlyWhileOpen(start, m, {}, answered, answer, lost);
  }
}
