/**
 * The pending-request protocol under concurrency. The task that handles a request inserts the pending entry, sends the
 * copies one by one and finally withdraws the entry if none was sent; the task that handles a response looks the entry
 * up and counts itself, forwards the response, reads the size of the pool, and then removes the entry if it was the
 * last response expected. Steps of all tasks interleave freely, any send may fail, and the pool may change its size at
 * any moment. A sequence number is used again only when its request is over, no cleanup runs, and a UPF answers at most
 * once, after its copy was sent.
 */
module ConcurrentExchange {
  import opened Types
  import opened Pending

  datatype Phase = Accepted | Sending | Finished

  /**
   * Where the task of one response is. `count` is what the lookup returned, `expected` how many responses the task
   * found to be expected; a task that has ended has none when its response could not be forwarded.
   */
  datatype Answer =
    | Arrived
    | Holding(origin: SocketAddr, isBroadcast: bool, count: nat)
    | Forwarded(isBroadcast: bool, count: nat)
    | Deciding(isBroadcast: bool, count: nat, expected: nat)
    | Answered(count: nat, expectation: Option<nat>)
    | Dropped

  /** One response sent on: whose it was, where it went, and whether the socket accepted it. */
  datatype Forwarding = Forwarding(upf: nat, to: SocketAddr, ok: bool)

  /**
   * One request and the responses to it: how many copies it is sent in and how many were attempted, which UPFs (by
   * position) got theirs, in which order their responses were counted, and what was sent on.
   */
  datatype Exchange = Exchange(
    origin: SocketAddr,
    broadcast: bool,
    copies: nat,
    phase: Phase,
    attempted: nat,
    reached: set<nat>,
    counted: seq<nat>,
    answers: map<nat, Answer>,
    forwards: seq<Forwarding>)

  datatype System = System(poolSize: nat, pending: Requests, exchanges: map<SeqNo, Exchange>)

  datatype TaskStep =
    | InsertPending
    | SendCopy(ok: bool)
    | FinishRequest
    | Arrive(upf: nat)
    | LookUp(upf: nat)
    | Forward(upf: nat, ok: bool)
    | ReadPoolSize(upf: nat)
    | MaybeRemove(upf: nat)

  datatype Action =
    | Accept(q: SeqNo, origin: SocketAddr, broadcast: bool)
    | Act(q: SeqNo, step: TaskStep)
    | Resize(size: nat)

  /** How many copies a request is sent in, or how many responses it expects, with a pool of this size. */
  function Copies(broadcast: bool, poolSize: nat): nat {
    if broadcast then poolSize else 1
  }

  function NewExchange(origin: SocketAddr, broadcast: bool, poolSize: nat): Exchange {
    Exchange(origin, broadcast, Copies(broadcast, poolSize), Accepted, 0, {}, [], map[], [])
  }

  predicate Enabled(x: Exchange, step: TaskStep) {
    match step
    case InsertPending => x.phase == Accepted
    case SendCopy(_) => x.phase == Sending && x.attempted < x.copies
    case FinishRequest => x.phase == Sending && x.attempted == x.copies
    case Arrive(j) => j in x.reached && j !in x.answers
    case LookUp(j) => j in x.answers && x.answers[j].Arrived?
    case Forward(j, _) => j in x.answers && x.answers[j].Holding?
    case ReadPoolSize(j) => j in x.answers && x.answers[j].Forwarded?
    case MaybeRemove(j) => j in x.answers && x.answers[j].Deciding?
  }

  function WithAnswer(x: Exchange, j: nat, a: Answer): Exchange {
    x.(answers := x.answers[j := a])
  }

  function Stepped(poolSize: nat, x: Exchange, entry: Option<RequestInfo>, step: TaskStep): Exchange
    requires Enabled(x, step)
  {
    match step
    case InsertPending => x.(phase := Sending)
    case SendCopy(ok) => x.(attempted := x.attempted + 1, reached := x.reached + if ok then {x.attempted} else {})
    case FinishRequest => x.(phase := Finished)
    case Arrive(j) => WithAnswer(x, j, Arrived)
    case LookUp(j) =>
      if entry == None then WithAnswer(x, j, Dropped)
      else
        var found := entry.value;
        WithAnswer(x, j, Holding(found.origin, found.isBroadcast, found.responses + 1)).(counted := x.counted + [j])
    case Forward(j, ok) =>
      var a := x.answers[j];
      WithAnswer(x, j, if ok then Forwarded(a.isBroadcast, a.count) else Answered(a.count, None)).(
        forwards := x.forwards + [Forwarding(j, a.origin, ok)])
    case ReadPoolSize(j) =>
      var a := x.answers[j];
      WithAnswer(x, j, Deciding(a.isBroadcast, a.count, Copies(a.isBroadcast, poolSize)))
    case MaybeRemove(j) => WithAnswer(x, j, Answered(x.answers[j].count, Some(x.answers[j].expected)))
  }

  /** The pending entry after the step: the part of the step that touches the shared tracker. */
  function EntryAfter(x: Exchange, entry: Option<RequestInfo>, step: TaskStep): Option<RequestInfo>
    requires Enabled(x, step)
  {
    match step
    case InsertPending => Some(RequestInfo(x.origin, 0, x.broadcast, 0, false))
    case FinishRequest => if x.reached == {} then None else entry
    case LookUp(_) => if entry == None then None else Some(entry.value.(responses := entry.value.responses + 1))
    case MaybeRemove(j) =>
      var a := x.answers[j];
      if !a.isBroadcast || a.count >= a.expected then None else entry
    case _ => entry
  }

  /** A sequence number may be used again once its request is over: no entry, no task under way, no answer to come. */
  predicate IsOver(s: System, q: SeqNo) {
    q !in s.exchanges
    || var x := s.exchanges[q];
       && x.phase == Finished && q !in s.pending && x.reached <= x.answers.Keys
       && forall j :: j in x.answers ==> x.answers[j].Answered? || x.answers[j].Dropped?
  }

  function EntryOf(s: System, q: SeqNo): Option<RequestInfo> {
    if q in s.pending then Some(s.pending[q]) else None
  }

  predicate Possible(s: System, a: Action) {
    match a
    case Accept(q, _, _) => IsOver(s, q)
    case Act(q, step) => q in s.exchanges && Enabled(s.exchanges[q], step)
    case Resize(_) => true
  }

  function Next(s: System, a: Action): System
    requires Possible(s, a)
  {
    match a
    case Accept(q, origin, broadcast) =>
      s.(exchanges := s.exchanges[q := NewExchange(origin, broadcast, s.poolSize)])
    case Act(q, step) =>
      var x, entry := s.exchanges[q], EntryOf(s, q);
      var after := EntryAfter(x, entry, step);
      s.(pending := if after == None then s.pending - {q} else s.pending[q := after.value],
         exchanges := s.exchanges[q := Stepped(s.poolSize, x, entry, step)])
    case Resize(size) => s.(poolSize := size)
  }

  /** Any interleaving of task steps and changes of the pool's size, from a pool of some size on. */
  datatype Schedule = Empty(poolSize: nat) | Then(before: Schedule, action: Action)

  function After(sched: Schedule): System {
    match sched
    case Empty(poolSize) => System(poolSize, map[], map[])
    case Then(before, a) =>
      var s := After(before);
      if Possible(s, a) then Next(s, a) else s
  }

  // The invariant of one exchange

  /** The response of UPF `j` was the `count`-th to be counted. */
  ghost predicate CountedAs(x: Exchange, j: nat, count: nat) {
    1 <= count <= |x.counted| && x.counted[count - 1] == j
  }

  /** The number a response task obtained from its lookup, if it has one. */
  function CountOf(a: Answer): Option<nat> {
    match a
    case Holding(_, _, count) => Some(count)
    case Forwarded(_, count) => Some(count)
    case Deciding(_, count, _) => Some(count)
    case Answered(count, _) => Some(count)
    case _ => None
  }

  /** What the task found to be expected after it had forwarded its response, if it got that far. */
  function ExpectationOf(a: Answer): Option<nat> {
    match a
    case Deciding(_, _, expected) => Some(expected)
    case Answered(_, expectation) => expectation
    case _ => None
  }

  ghost predicate AnswerOk(x: Exchange, j: nat, a: Answer) {
    && j in x.reached
    && (CountOf(a) == None ==> j !in x.counted)
    && (CountOf(a).Some? ==> CountedAs(x, j, CountOf(a).value))
    && match a
       case Holding(origin, isBroadcast, _) => origin == x.origin && isBroadcast == x.broadcast
       case Forwarded(isBroadcast, _) => isBroadcast == x.broadcast
       case Deciding(isBroadcast, _, expected) => isBroadcast == x.broadcast && (!isBroadcast ==> expected == 1)
       case _ => true
  }

  /** The task has removed the entry: its response was delivered and as many responses were counted as it expected. */
  predicate Closes(a: Answer) {
    a.Answered? && a.expectation.Some? && a.count >= a.expectation.value
  }

  ghost predicate Closed(x: Exchange) {
    exists j :: j in x.answers && Closes(x.answers[j])
  }

  /** The entry is gone: some response task removed it, or nothing was ever sent. */
  ghost predicate Gone(x: Exchange) {
    Closed(x) || (x.phase == Finished && x.reached == {})
  }

  ghost predicate CountedHaveCounts(x: Exchange) {
    forall i :: 0 <= i < |x.counted| ==> x.counted[i] in x.answers && CountOf(x.answers[x.counted[i]]).Some?
  }

  ghost predicate Ok(x: Exchange, entry: Option<RequestInfo>) {
    && x.attempted <= x.copies
    && (!x.broadcast ==> x.copies == 1)
    && (forall j :: j in x.reached ==> j < x.attempted)
    && (x.phase == Accepted ==> x.attempted == 0 && x.counted == [] && x.answers == map[] && entry == None)
    && Distinct(x.counted)
    && CountedHaveCounts(x)
    && (forall j :: j in x.answers ==> AnswerOk(x, j, x.answers[j]))
    && (forall j :: j in x.answers && x.answers[j].Dropped? ==> Closed(x))
    && (entry.Some? ==> entry.value == RequestInfo(x.origin, 0, x.broadcast, |x.counted|, false))
    && (x.phase != Accepted ==> (entry == None <==> Gone(x)))
  }

  ghost predicate Invariant(s: System) {
    && (forall q :: q in s.exchanges ==> Ok(s.exchanges[q], EntryOf(s, q)))
    && (forall q :: q in s.pending ==> q in s.exchanges)
  }

  /** Distinct numbers below `n` are at most `n`. */
  lemma {:induction false} Pigeonhole(s: seq<nat>, n: nat)
    requires Distinct(s) && forall i :: 0 <= i < |s| ==> s[i] < n
    ensures |s| <= n
  {
    if s != [] {
      assert s[0] < n;
      if exists i :: 0 <= i < |s| && s[i] == n - 1 {
        var i :| 0 <= i < |s| && s[i] == n - 1;
        var rest := s[..i] + s[i + 1..];
        assert forall k :: 0 <= k < |rest| ==> rest[k] == s[if k < i then k else k + 1];
        Pigeonhole(rest, n - 1);
      } else {
        Pigeonhole(s, n - 1);
      }
    }
  }

  /** While some reached UPF's response is not counted, fewer responses than copies are counted. */
  lemma UncountedLeavesRoom(x: Exchange, entry: Option<RequestInfo>, j: nat)
    requires Ok(x, entry) && j in x.reached && j !in x.counted
    ensures |x.counted| < x.copies
  {
    var all := x.counted + [j];
    forall i | 0 <= i < |all|
      ensures all[i] < x.attempted
    {
      if i < |x.counted| {
        assert AnswerOk(x, x.counted[i], x.answers[x.counted[i]]);
      }
    }
    Pigeonhole(all, x.attempted);
  }

  lemma CountedFits(x: Exchange, entry: Option<RequestInfo>)
    requires Ok(x, entry)
    ensures |x.counted| <= x.copies
  {
    forall i | 0 <= i < |x.counted|
      ensures x.counted[i] < x.attempted
    {
      assert AnswerOk(x, x.counted[i], x.answers[x.counted[i]]);
    }
    Pigeonhole(x.counted, x.attempted);
  }

  /** A task stays in order whatever happens to the others. */
  lemma AnswerStaysOk(x: Exchange, x': Exchange, j: nat, a: Answer)
    requires AnswerOk(x, j, a) && x'.origin == x.origin && x'.broadcast == x.broadcast && x.reached <= x'.reached
    requires x'.counted == x.counted || exists i :: i != j && x'.counted == x.counted + [i]
    ensures AnswerOk(x', j, a)
  {
  }

  lemma RequestStepKeepsOk(poolSize: nat, x: Exchange, entry: Option<RequestInfo>, step: TaskStep)
    requires Ok(x, entry) && Enabled(x, step)
    requires step.InsertPending? || step.SendCopy? || step.FinishRequest?
    ensures Ok(Stepped(poolSize, x, entry, step), EntryAfter(x, entry, step))
  {
    var x' := Stepped(poolSize, x, entry, step);
    assert Closed(x') <==> Closed(x);
    if Closed(x) {
      var j :| j in x.answers && Closes(x.answers[j]);
      assert AnswerOk(x, j, x.answers[j]);
    }
    if x.counted != [] {
      assert AnswerOk(x, x.counted[0], x.answers[x.counted[0]]);
    }
    hide AnswerOk, Closed, CountedHaveCounts;
    assert CountedHaveCounts(x') by { CountsDependOnAnswers(x, x'); }
    forall j | j in x'.answers
      ensures AnswerOk(x', j, x'.answers[j])
    {
      AnswerStaysOk(x, x', j, x.answers[j]);
    }
  }

  lemma CountsDependOnAnswers(x: Exchange, x': Exchange)
    requires CountedHaveCounts(x) && x'.counted == x.counted && x'.answers == x.answers
    ensures CountedHaveCounts(x')
  {
  }

  /** The lookup finds no entry exactly when the exchange is closed. */
  lemma LookUpMissesWhenClosed(x: Exchange, entry: Option<RequestInfo>, j: nat)
    requires Ok(x, entry) && Enabled(x, LookUp(j))
    ensures entry == None <==> Closed(x)
    ensures j in x.reached && j !in x.counted && x.phase != Accepted
  {
    assert AnswerOk(x, j, x.answers[j]);
  }

  lemma LookUpKeepsOk(poolSize: nat, x: Exchange, entry: Option<RequestInfo>, j: nat)
    requires Ok(x, entry) && Enabled(x, LookUp(j))
    ensures Ok(Stepped(poolSize, x, entry, LookUp(j)), EntryAfter(x, entry, LookUp(j)))
  {
    LookUpMissesWhenClosed(x, entry, j);
    var x' := Stepped(poolSize, x, entry, LookUp(j));
    ClosedUnlessReplaced(x, j, x'.answers[j]);
    assert Closed(x') <==> Closed(WithAnswer(x, j, x'.answers[j]));
    assert AnswerOk(x', j, x'.answers[j]);
    assert CountedHaveCounts(x');
    assert !Closes(x'.answers[j]);
    hide AnswerOk, Closed, Closes, CountedHaveCounts, CountOf;
    forall i | i in x'.answers
      ensures AnswerOk(x', i, x'.answers[i])
    {
      if i != j {
        AnswerStaysOk(x, x', i, x.answers[i]);
      }
    }
  }

  /** Replacing an answer that has not closed the exchange closes it exactly when the new one does. */
  lemma ClosedUnlessReplaced(x: Exchange, j: nat, a: Answer)
    requires j in x.answers ==> !Closes(x.answers[j])
    ensures Closed(WithAnswer(x, j, a)) <==> Closed(x) || Closes(a)
  {
    var x' := WithAnswer(x, j, a);
    assert Closes(a) ==> j in x'.answers && Closes(x'.answers[j]);
    if Closed(x) {
      var i :| i in x.answers && Closes(x.answers[i]);
      assert i in x'.answers && Closes(x'.answers[i]);
    }
    if Closed(x') {
      var i :| i in x'.answers && Closes(x'.answers[i]);
      assert i != j ==> i in x.answers && Closes(x.answers[i]);
    }
  }

  /** Moving one response task on keeps the exchange in order, if the entry goes exactly when the task closes it. */
  lemma WithAnswerOk(x: Exchange, entry: Option<RequestInfo>, j: nat, a: Answer, after: Option<RequestInfo>)
    requires Ok(x, entry) && AnswerOk(x, j, a) && !a.Dropped?
    requires j in x.answers ==> !Closes(x.answers[j])
    requires after == if Closes(a) then None else entry
    ensures Ok(WithAnswer(x, j, a), after)
  {
    ClosedUnlessReplaced(x, j, a);
    CountedAfterAnswer(x, j, a);
    hide Closed, Closes, AnswerOk, CountedHaveCounts, CountOf;
    var x' := WithAnswer(x, j, a);
    forall i | i in x'.answers
      ensures AnswerOk(x', i, x'.answers[i])
    {
      AnswerStaysOk(x, x', i, x'.answers[i]);
    }
  }

  lemma CountedAfterAnswer(x: Exchange, j: nat, a: Answer)
    requires CountedHaveCounts(x) && AnswerOk(x, j, a)
    ensures CountedHaveCounts(WithAnswer(x, j, a))
  {
    forall i | 0 <= i < |x.counted|
      ensures x.counted[i] == j ==> CountOf(a).Some?
    {
      assert x.counted[i] == j ==> j in x.counted;
    }
  }

  lemma AnswerStepKeepsOk(poolSize: nat, x: Exchange, entry: Option<RequestInfo>, step: TaskStep)
    requires Ok(x, entry) && Enabled(x, step)
    requires step.Arrive? || step.Forward? || step.ReadPoolSize? || step.MaybeRemove?
    ensures Ok(Stepped(poolSize, x, entry, step), EntryAfter(x, entry, step))
  {
    var j, after := step.upf, EntryAfter(x, entry, step);
    var x' := Stepped(poolSize, x, entry, step);
    var a := x'.answers[j];
    if j in x.answers {
      assert AnswerOk(x, j, x.answers[j]);
    } else {
      assert j !in x.counted;
    }
    assert AnswerOk(x, j, a);
    hide AnswerOk, CountedHaveCounts, Closed, Ok;
    WithAnswerOk(x, entry, j, a, after);
    OkIgnoresForwards(WithAnswer(x, j, a), after, x'.forwards);
  }

  lemma OkIgnoresForwards(x: Exchange, entry: Option<RequestInfo>, forwards: seq<Forwarding>)
    requires Ok(x, entry)
    ensures Ok(x.(forwards := forwards), entry)
  {
    var x' := x.(forwards := forwards);
    assert Closed(x') <==> Closed(x);
    CountsDependOnAnswers(x, x');
    hide AnswerOk, Closed, CountedHaveCounts;
    forall j | j in x'.answers
      ensures AnswerOk(x', j, x'.answers[j])
    {
      AnswerStaysOk(x, x', j, x.answers[j]);
    }
  }

  lemma StepKeepsOk(poolSize: nat, x: Exchange, entry: Option<RequestInfo>, step: TaskStep)
    requires Ok(x, entry) && Enabled(x, step)
    ensures Ok(Stepped(poolSize, x, entry, step), EntryAfter(x, entry, step))
  {
    hide Ok;
    match step
    case LookUp(j) => LookUpKeepsOk(poolSize, x, entry, j);
    case Arrive(_) => AnswerStepKeepsOk(poolSize, x, entry, step);
    case Forward(_, _) => AnswerStepKeepsOk(poolSize, x, entry, step);
    case ReadPoolSize(_) => AnswerStepKeepsOk(poolSize, x, entry, step);
    case MaybeRemove(_) => AnswerStepKeepsOk(poolSize, x, entry, step);
    case _ => RequestStepKeepsOk(poolSize, x, entry, step);
  }

  lemma {:induction false} InvariantHolds(sched: Schedule)
    ensures Invariant(After(sched))
  {
    hide Ok, Enabled, Stepped, EntryAfter;
    if sched.Then? {
      InvariantHolds(sched.before);
      var s, a := After(sched.before), sched.action;
      if Possible(s, a) {
        match a
        case Accept(q, origin, broadcast) => FreshExchangeOk(origin, broadcast, s.poolSize);
        case Act(q, step) => StepKeepsOk(s.poolSize, s.exchanges[q], EntryOf(s, q), step);
        case Resize(_) => assert forall q :: EntryOf(After(sched), q) == EntryOf(s, q);
      }
    }
  }

  lemma FreshExchangeOk(origin: SocketAddr, broadcast: bool, poolSize: nat)
    ensures Ok(NewExchange(origin, broadcast, poolSize), None)
  {
  }

  // What every interleaving guarantees

  /** Some response task closed the exchange because it found fewer responses expected than copies were sent. */
  ghost predicate ClosedEarly(x: Exchange) {
    x.broadcast && exists j :: j in x.answers && Closes(x.answers[j]) && x.answers[j].expectation.value < x.copies
  }

  /** A closed exchange with a response still to count was closed early. */
  lemma ClosedWithRoomIsEarly(x: Exchange, entry: Option<RequestInfo>, j: nat)
    requires Ok(x, entry) && Closed(x) && j in x.answers && CountOf(x.answers[j]) == None
    ensures ClosedEarly(x)
  {
    assert AnswerOk(x, j, x.answers[j]);
    UncountedLeavesRoom(x, entry, j);
    var i :| i in x.answers && Closes(x.answers[i]);
    assert AnswerOk(x, i, x.answers[i]);
  }

  /**
   * Exactly which responses are lost: in every interleaving, whatever sends fail and however the pool changes, a
   * response that is about to be looked up finds its entry, with the sender of its own request, unless its broadcast
   * was closed early: a response task read a pool smaller than the number of copies. Only then is a response dropped.
   */
  lemma LostExactlyWhenClosedEarly(sched: Schedule, q: SeqNo, j: nat)
    requires q in After(sched).exchanges && j in After(sched).exchanges[q].answers
    ensures var s := After(sched);
      var x := s.exchanges[q];
      && (x.answers[j].Arrived? ==> (q !in s.pending <==> ClosedEarly(x)))
      && (x.answers[j].Dropped? ==> ClosedEarly(x))
      && (x.answers[j].Arrived? && q in s.pending ==> s.pending[q].origin == x.origin)
      && (x.answers[j].Holding? ==> x.answers[j].origin == x.origin)
  {
    InvariantHolds(sched);
    var s := After(sched);
    var x := s.exchanges[q];
    assert AnswerOk(x, j, x.answers[j]);
    if x.answers[j].Arrived? {
      LookUpMissesWhenClosed(x, EntryOf(s, q), j);
    }
    if CountOf(x.answers[j]) == None && Closed(x) {
      ClosedWithRoomIsEarly(x, EntryOf(s, q), j);
    }
  }

  ghost predicate NeverShrinks(sched: Schedule) {
    sched.Then? ==>
      NeverShrinks(sched.before) && (sched.action.Resize? ==> After(sched.before).poolSize <= sched.action.size)
  }

  /** As long as the pool does not shrink, no response task expects fewer responses than copies were sent. */
  ghost predicate ExpectsEnough(poolSize: nat, x: Exchange) {
    && x.copies <= Copies(x.broadcast, poolSize)
    && forall j :: j in x.answers && ExpectationOf(x.answers[j]).Some? ==> x.copies <= ExpectationOf(x.answers[j]).value
  }

  lemma {:induction false} NeverShrinkingExpectsEnough(sched: Schedule, q: SeqNo)
    requires NeverShrinks(sched) && q in After(sched).exchanges
    ensures ExpectsEnough(After(sched).poolSize, After(sched).exchanges[q])
  {
    hide Stepped, EntryAfter, Enabled, Ok;
    var s := After(sched.before);
    if Possible(s, sched.action) {
      match sched.action
      case Act(p, step) =>
        NeverShrinkingExpectsEnough(sched.before, q);
        if p == q {
          InvariantHolds(sched.before);
          StepKeepsExpectation(s.poolSize, s.exchanges[q], EntryOf(s, q), step);
        }
      case Accept(p, _, _) => if p != q { NeverShrinkingExpectsEnough(sched.before, q); }
      case Resize(_) => NeverShrinkingExpectsEnough(sched.before, q);
    } else {
      NeverShrinkingExpectsEnough(sched.before, q);
    }
  }

  lemma StepKeepsExpectation(poolSize: nat, x: Exchange, entry: Option<RequestInfo>, step: TaskStep)
    requires Ok(x, entry) && Enabled(x, step) && ExpectsEnough(poolSize, x)
    ensures ExpectsEnough(poolSize, Stepped(poolSize, x, entry, step))
  {
    if step.ReadPoolSize? {
      assert AnswerOk(x, step.upf, x.answers[step.upf]);
    }
  }

  /**
   * In every interleaving in which the pool never shrinks, whatever sends fail, no response is dropped: one that looks
   * its entry up always finds it, and what it then holds is the sender of its own request.
   */
  lemma NoResponseIsLost(sched: Schedule, q: SeqNo, j: nat)
    requires NeverShrinks(sched) && q in After(sched).exchanges && j in After(sched).exchanges[q].answers
    ensures var s := After(sched);
      var x := s.exchanges[q];
      && !x.answers[j].Dropped?
      && (x.answers[j].Arrived? ==> q in s.pending && s.pending[q].origin == x.origin)
      && (x.answers[j].Holding? ==> x.answers[j].origin == x.origin)
  {
    LostExactlyWhenClosedEarly(sched, q, j);
    NeverShrinkingExpectsEnough(sched, q);
  }

  ghost predicate FixedPool(sched: Schedule) {
    sched.Then? ==>
      FixedPool(sched.before) && (sched.action.Resize? ==> After(sched.before).poolSize == sched.action.size)
  }

  /** With a pool of fixed size every response task expects as many responses as copies were sent. */
  ghost predicate ExpectsCopies(poolSize: nat, x: Exchange) {
    && x.copies == Copies(x.broadcast, poolSize)
    && forall j :: j in x.answers && ExpectationOf(x.answers[j]).Some? ==> ExpectationOf(x.answers[j]).value == x.copies
  }

  lemma {:induction false} FixedPoolExpectsCopies(sched: Schedule, q: SeqNo)
    requires FixedPool(sched) && q in After(sched).exchanges
    ensures ExpectsCopies(After(sched).poolSize, After(sched).exchanges[q])
  {
    hide Stepped, EntryAfter, Enabled, Ok;
    var s := After(sched.before);
    if Possible(s, sched.action) {
      match sched.action
      case Act(p, step) =>
        FixedPoolExpectsCopies(sched.before, q);
        if p == q {
          InvariantHolds(sched.before);
          StepKeepsExactExpectation(s.poolSize, s.exchanges[q], EntryOf(s, q), step);
        }
      case Accept(p, _, _) => if p != q { FixedPoolExpectsCopies(sched.before, q); }
      case Resize(_) => FixedPoolExpectsCopies(sched.before, q);
    } else {
      FixedPoolExpectsCopies(sched.before, q);
    }
  }

  lemma StepKeepsExactExpectation(poolSize: nat, x: Exchange, entry: Option<RequestInfo>, step: TaskStep)
    requires Ok(x, entry) && Enabled(x, step) && ExpectsCopies(poolSize, x)
    ensures ExpectsCopies(poolSize, Stepped(poolSize, x, entry, step))
  {
    if step.ReadPoolSize? {
      assert AnswerOk(x, step.upf, x.answers[step.upf]);
    }
  }

  /** The entry is gone because the response counted last was delivered, or because nothing was ever sent. */
  ghost predicate Retired(x: Exchange) {
    || (x.phase == Finished && x.reached == {})
    || (|x.counted| == x.copies > 0 && Delivered(x, x.counted[x.copies - 1]))
  }

  /** The task of UPF `j`'s response has forwarded it and ended. */
  predicate Delivered(x: Exchange, j: nat) {
    j in x.answers && x.answers[j].Answered? && x.answers[j].expectation.Some?
  }

  /** Every copy reached its UPF, and every response task has delivered its response and ended. */
  ghost predicate AllDelivered(x: Exchange) {
    forall j :: 0 <= j < x.copies ==> Delivered(x, j)
  }

  lemma {:induction false} CoversAll(s: seq<nat>, n: nat)
    requires Distinct(s) && forall j :: 0 <= j < n ==> j in s
    ensures n <= |s|
  {
    if n > 0 {
      assert n - 1 in s;
      var i :| 0 <= i < |s| && s[i] == n - 1;
      var rest := s[..i] + s[i + 1..];
      assert forall k :: 0 <= k < |rest| ==> rest[k] == s[if k < i then k else k + 1];
      forall j | 0 <= j < n - 1
        ensures j in rest
      {
        assert j in s;
        var k :| 0 <= k < |s| && s[k] == j;
        assert rest[if k < i then k else k - 1] == j;
      }
      CoversAll(rest, n - 1);
    }
  }

  /** Where tasks expect as many responses as copies, exactly the response counted last can close the exchange. */
  lemma ClosedExactlyByTheLast(poolSize: nat, x: Exchange, entry: Option<RequestInfo>)
    requires Ok(x, entry) && ExpectsCopies(poolSize, x)
    ensures Gone(x) <==> Retired(x)
  {
    CountedFits(x, entry);
    hide AnswerOk, Closes;
    if Closed(x) {
      var j :| j in x.answers && Closes(x.answers[j]);
      LastCloses(poolSize, x, j);
    }
    if |x.counted| == x.copies > 0 && Delivered(x, x.counted[x.copies - 1]) {
      LastDelivers(poolSize, x, x.counted[x.copies - 1]);
    }
  }

  lemma LastCloses(poolSize: nat, x: Exchange, j: nat)
    requires ExpectsCopies(poolSize, x) && |x.counted| <= x.copies
    requires j in x.answers && AnswerOk(x, j, x.answers[j]) && Closes(x.answers[j])
    ensures |x.counted| == x.copies > 0 && Delivered(x, x.counted[x.copies - 1])
  {
    assert ExpectationOf(x.answers[j]).Some?;
    assert x.counted[x.copies - 1] == j;
  }

  lemma LastDelivers(poolSize: nat, x: Exchange, j: nat)
    requires ExpectsCopies(poolSize, x) && |x.counted| == x.copies > 0 && j == x.counted[x.copies - 1]
    requires Distinct(x.counted) && Delivered(x, j) && AnswerOk(x, j, x.answers[j])
    ensures Closes(x.answers[j])
  {
    assert ExpectationOf(x.answers[j]).Some?;
  }

  /**
   * Completion: with a pool of fixed size, once the pending entry of a request was inserted, it is gone exactly when
   * the response counted last, out of as many as there are copies, was delivered and its task has ended, or when not a
   * single copy could be sent. In particular it is gone once all responses are delivered.
   */
  lemma EntryGoneExactlyWhenComplete(sched: Schedule, q: SeqNo)
    requires FixedPool(sched) && q in After(sched).exchanges && After(sched).exchanges[q].phase != Accepted
    ensures var s := After(sched);
      var x := s.exchanges[q];
      && (q !in s.pending <==> Retired(x))
      && (q in s.pending ==> s.pending[q].responses == |x.counted| <= x.copies)
      && (x.copies > 0 && AllDelivered(x) ==> q !in s.pending)
  {
    InvariantHolds(sched);
    FixedPoolExpectsCopies(sched, q);
    var s := After(sched);
    var x := s.exchanges[q];
    ClosedExactlyByTheLast(s.poolSize, x, EntryOf(s, q));
    CountedFits(x, EntryOf(s, q));
    if x.copies > 0 && AllDelivered(x) {
      AllDeliveredIsRetired(x, EntryOf(s, q));
    }
  }

  lemma AllDeliveredIsRetired(x: Exchange, entry: Option<RequestInfo>)
    requires Ok(x, entry) && x.copies > 0 && AllDelivered(x)
    ensures Retired(x)
  {
    CountedFits(x, entry);
    forall j | 0 <= j < x.copies
      ensures j in x.counted
    {
      assert Delivered(x, j) && AnswerOk(x, j, x.answers[j]);
    }
    CoversAll(x.counted, x.copies);
    var last := x.counted[x.copies - 1];
    assert AnswerOk(x, last, x.answers[last]) && Delivered(x, last);
  }

  /**
   * The numbers that responses obtain from their lookups are distinct and between one and the number of copies, for
   * tasks under way as for those that have ended.
   */
  lemma CountsAreDistinct(sched: Schedule, q: SeqNo, i: nat, j: nat)
    requires q in After(sched).exchanges
    requires i in After(sched).exchanges[q].answers && j in After(sched).exchanges[q].answers && i != j
    requires CountOf(After(sched).exchanges[q].answers[i]).Some? && CountOf(After(sched).exchanges[q].answers[j]).Some?
    ensures var x := After(sched).exchanges[q];
      && CountOf(x.answers[i]) != CountOf(x.answers[j])
      && 1 <= CountOf(x.answers[i]).value <= x.copies
  {
    InvariantHolds(sched);
    hide After, Ok, CountOf;
    CountsDiffer(After(sched).exchanges[q], EntryOf(After(sched), q), i, j);
  }

  lemma CountsDiffer(x: Exchange, entry: Option<RequestInfo>, i: nat, j: nat)
    requires Ok(x, entry) && i in x.answers && j in x.answers && i != j
    requires CountOf(x.answers[i]).Some? && CountOf(x.answers[j]).Some?
    ensures CountOf(x.answers[i]) != CountOf(x.answers[j])
    ensures 1 <= CountOf(x.answers[i]).value <= x.copies
  {
    CountedFits(x, entry);
    assert AnswerOk(x, i, x.answers[i]) && AnswerOk(x, j, x.answers[j]);
  }

  // What is sent on

  /** Whether the task has sent its response on, and if so whether the socket accepted it. */
  function SentOn(a: Answer): Option<bool> {
    match a
    case Forwarded(_, _) => Some(true)
    case Deciding(_, _, _) => Some(true)
    case Answered(_, expectation) => Some(expectation.Some?)
    case _ => None
  }

  /** The record of what was sent on agrees with the tasks: each went to the origin, and none was sent twice. */
  ghost predicate ForwardsOk(x: Exchange) {
    && (forall i :: 0 <= i < |x.forwards| ==>
          && x.forwards[i].to == x.origin
          && x.forwards[i].upf in x.answers && SentOn(x.answers[x.forwards[i].upf]) == Some(x.forwards[i].ok))
    && (forall i, k :: 0 <= i < k < |x.forwards| ==> x.forwards[i].upf != x.forwards[k].upf)
    && (forall j :: j in x.answers && SentOn(x.answers[j]).Some? ==>
          exists i :: 0 <= i < |x.forwards| && x.forwards[i].upf == j)
  }

  lemma StepKeepsForwards(poolSize: nat, x: Exchange, entry: Option<RequestInfo>, step: TaskStep)
    requires Ok(x, entry) && Enabled(x, step) && ForwardsOk(x)
    ensures ForwardsOk(Stepped(poolSize, x, entry, step))
  {
    var x' := Stepped(poolSize, x, entry, step);
    if step.Forward? {
      assert AnswerOk(x, step.upf, x.answers[step.upf]);
      hide Ok;
      ForwardKeepsForwards(x, step.upf, x'.answers[step.upf], step.ok);
    } else {
      hide Ok, ForwardsOk;
      SameSendsKeepForwards(x, x');
    }
  }

  lemma SameSendsKeepForwards(x: Exchange, x': Exchange)
    requires ForwardsOk(x) && x'.forwards == x.forwards && x'.origin == x.origin
    requires forall j :: j in x.answers ==> j in x'.answers && SentOn(x'.answers[j]) == SentOn(x.answers[j])
    requires forall j :: j in x'.answers && SentOn(x'.answers[j]).Some? ==> j in x.answers
    ensures ForwardsOk(x')
  {
  }

  lemma ForwardKeepsForwards(x: Exchange, j: nat, a: Answer, ok: bool)
    requires ForwardsOk(x) && j in x.answers && SentOn(x.answers[j]) == None && SentOn(a) == Some(ok)
    ensures ForwardsOk(WithAnswer(x, j, a).(forwards := x.forwards + [Forwarding(j, x.origin, ok)]))
  {
    var x' := WithAnswer(x, j, a).(forwards := x.forwards + [Forwarding(j, x.origin, ok)]);
    assert x'.forwards[|x.forwards|].upf == j;
    forall k | k in x'.answers && SentOn(x'.answers[k]).Some?
      ensures exists i :: 0 <= i < |x'.forwards| && x'.forwards[i].upf == k
    {
      if k != j {
        var i :| 0 <= i < |x.forwards| && x.forwards[i].upf == k;
        assert x'.forwards[i].upf == k;
      }
    }
  }

  lemma {:induction false} ForwardsAgree(sched: Schedule, q: SeqNo)
    requires q in After(sched).exchanges
    ensures ForwardsOk(After(sched).exchanges[q])
  {
    hide Stepped, EntryAfter, Enabled, Ok;
    var s := After(sched.before);
    if Possible(s, sched.action) {
      match sched.action
      case Act(p, step) =>
        ForwardsAgree(sched.before, q);
        if p == q {
          InvariantHolds(sched.before);
          StepKeepsForwards(s.poolSize, s.exchanges[q], EntryOf(s, q), step);
        }
      case Accept(p, _, _) => if p != q { ForwardsAgree(sched.before, q); }
      case Resize(_) => ForwardsAgree(sched.before, q);
    } else {
      ForwardsAgree(sched.before, q);
    }
  }

  /**
   * In every interleaving, however the pool changes, responses are sent on to the sender of their request only, at most
   * one for each UPF that was reached, hence at most as many as there are copies; and a task that has delivered its
   * response has sent it on.
   */
  lemma ResponsesReturnToOrigin(sched: Schedule, q: SeqNo)
    requires q in After(sched).exchanges
    ensures var x := After(sched).exchanges[q];
      && (forall i :: 0 <= i < |x.forwards| ==> x.forwards[i].to == x.origin && x.forwards[i].upf in x.reached)
      && (forall i, k :: 0 <= i < k < |x.forwards| ==> x.forwards[i].upf != x.forwards[k].upf)
      && (forall j :: Delivered(x, j) ==> Forwarding(j, x.origin, true) in x.forwards)
      && |x.forwards| <= x.copies
  {
    InvariantHolds(sched);
    ForwardsAgree(sched, q);
    hide After, Ok, ForwardsOk;
    ForwardsAreBounded(After(sched).exchanges[q], EntryOf(After(sched), q));
  }

  lemma ForwardsAreBounded(x: Exchange, entry: Option<RequestInfo>)
    requires Ok(x, entry) && ForwardsOk(x)
    ensures forall i :: 0 <= i < |x.forwards| ==> x.forwards[i].to == x.origin && x.forwards[i].upf in x.reached
    ensures forall i, k :: 0 <= i < k < |x.forwards| ==> x.forwards[i].upf != x.forwards[k].upf
    ensures forall j :: Delivered(x, j) ==> Forwarding(j, x.origin, true) in x.forwards
    ensures |x.forwards| <= x.copies
  {
    var upfs := seq(|x.forwards|, i requires 0 <= i < |x.forwards| => x.forwards[i].upf);
    forall i | 0 <= i < |upfs|
      ensures upfs[i] in x.reached
    {
      assert AnswerOk(x, upfs[i], x.answers[upfs[i]]);
    }
    Pigeonhole(upfs, x.attempted);
    forall j | Delivered(x, j)
      ensures Forwarding(j, x.origin, true) in x.forwards
    {
      var i :| 0 <= i < |x.forwards| && x.forwards[i].upf == j;
      assert x.forwards[i] == Forwarding(j, x.origin, true);
    }
  }
}
