/**
 * Least-sessions selection under concurrency. Every message is handled by its own task; a task reads the session count
 * of one backend after another, and other tasks run between any two of its steps and before it inserts its session.
 */
module ConcurrentBalance {
  import opened Types
  import opened Sessions
  import opened Pool

  /**
   * A task establishing a session: it has read the counts of the first `next` backends, `best` is the backend it
   * would choose so far and `least` the count it read there.
   */
  datatype Task = Task(seid: Seid, smf: SocketAddr, next: nat, best: Option<SocketAddr>, least: nat)

  datatype System = System(table: Table, tasks: map<nat, Task>)

  datatype Action =
    | Begin(id: nat, seid: Seid, smf: SocketAddr)
    | ReadNext(id: nat)
    | Insert(id: nat)
    | GiveUp(id: nat)

  /** Tasks start with fresh SEIDs, and at most `k` are between the start of their scan and their insertion. */
  predicate Enabled(healthy: seq<SocketAddr>, k: nat, s: System, a: Action) {
    match a
    case Begin(id, seid, _) =>
      id !in s.tasks && |s.tasks| < k && seid !in s.table && forall i :: i in s.tasks ==> s.tasks[i].seid != seid
    case ReadNext(id) => id in s.tasks && s.tasks[id].next < |healthy|
    case Insert(id) => id in s.tasks && s.tasks[id].next == |healthy| && s.tasks[id].best.Some?
    case GiveUp(id) => id in s.tasks && s.tasks[id].next == |healthy| && s.tasks[id].best == None
  }

  function Scan(t: Task, addr: SocketAddr, count: nat): Task {
    if count < t.least then t.(next := t.next + 1, best := Some(addr), least := count)
    else t.(next := t.next + 1)
  }

  function Apply(healthy: seq<SocketAddr>, k: nat, s: System, a: Action): System
    requires Enabled(healthy, k, s, a)
  {
    match a
    case Begin(id, seid, smf) => s.(tasks := s.tasks[id := Task(seid, smf, 0, None, USIZE_MAX)])
    case ReadNext(id) =>
      var addr := healthy[s.tasks[id].next];
      s.(tasks := s.tasks[id := Scan(s.tasks[id], addr, SessionsOn(s.table, addr))])
    case Insert(id) =>
      var t := s.tasks[id];
      System(s.table[t.seid := SessionInfo(t.best.value, t.smf)], s.tasks - {id})
    case GiveUp(id) => s.(tasks := s.tasks - {id})
  }

  /** Any interleaving of task steps, from an empty table. */
  datatype Schedule = Empty | Then(before: Schedule, action: Action)

  ghost predicate Legal(healthy: seq<SocketAddr>, k: nat, sched: Schedule) {
    sched.Then? ==>
      Legal(healthy, k, sched.before) && Enabled(healthy, k, After(healthy, k, sched.before), sched.action)
  }

  ghost function After(healthy: seq<SocketAddr>, k: nat, sched: Schedule): System {
    match sched
    case Empty => System(map[], map[])
    case Then(before, a) =>
      var s := After(healthy, k, before);
      if Enabled(healthy, k, s, a) then Apply(healthy, k, s, a) else s
  }

  predicate Scanned(healthy: seq<SocketAddr>, t: Task, addr: SocketAddr) {
    t.next <= |healthy| && addr in healthy[..t.next]
  }

  /**
   * The tasks that may still choose `p` although `c` has only `x` sessions: those that have `p` as their best so far
   * and either have passed `c` already or hold a count for `p` that does not exceed `x`.
   */
  ghost function Threat(healthy: seq<SocketAddr>, s: System, p: SocketAddr, c: SocketAddr, x: nat): set<nat> {
    set id | id in s.tasks && s.tasks[id].best == Some(p)
             && (Scanned(healthy, s.tasks[id], c) || s.tasks[id].least <= x)
  }

  ghost predicate TaskOk(healthy: seq<SocketAddr>, s: System, t: Task) {
    && t.next <= |healthy|
    && t.seid !in s.table
    && forall c :: Scanned(healthy, t, c) ==> t.least <= SessionsOn(s.table, c)
  }

  ghost predicate TasksOk(healthy: seq<SocketAddr>, k: nat, s: System) {
    && |s.tasks| <= k
    && (forall id :: id in s.tasks ==> TaskOk(healthy, s, s.tasks[id]))
    && (forall i, j :: i in s.tasks && j in s.tasks && i != j ==> s.tasks[i].seid != s.tasks[j].seid)
  }

  /** However many of the threatening tasks go through, `p` stays within `k` of the sessions `c` then has. */
  ghost predicate Bounded(healthy: seq<SocketAddr>, k: nat, s: System, p: SocketAddr, c: SocketAddr, x: nat) {
    SessionsOn(s.table, c) <= x ==> SessionsOn(s.table, p) + |Threat(healthy, s, p, c, x)| <= x + k
  }

  ghost predicate Invariant(healthy: seq<SocketAddr>, k: nat, s: System) {
    && TasksOk(healthy, k, s)
    && forall p, c, x: nat :: p in healthy && c in healthy ==> Bounded(healthy, k, s, p, c, x)
  }

  lemma ThreatSize(healthy: seq<SocketAddr>, s: System, p: SocketAddr, c: SocketAddr, x: nat)
    ensures |Threat(healthy, s, p, c, x)| <= |s.tasks|
  {
    SubsetSize(Threat(healthy, s, p, c, x), s.tasks.Keys);
    assert |s.tasks.Keys| == |s.tasks|;
  }

  lemma BeginKeepsBound(healthy: seq<SocketAddr>, k: nat, s: System, a: Action, p: SocketAddr, c: SocketAddr, x: nat)
    requires Bounded(healthy, k, s, p, c, x) && a.Begin? && Enabled(healthy, k, s, a)
    ensures Bounded(healthy, k, Apply(healthy, k, s, a), p, c, x)
  {
    hide SessionsOn;
    assert Threat(healthy, Apply(healthy, k, s, a), p, c, x) == Threat(healthy, s, p, c, x);
  }

  lemma BeginKeepsInvariant(healthy: seq<SocketAddr>, k: nat, s: System, a: Action)
    requires Invariant(healthy, k, s) && a.Begin? && Enabled(healthy, k, s, a)
    ensures Invariant(healthy, k, Apply(healthy, k, s, a))
  {
    hide SessionsOn, Bounded;
    var s' := Apply(healthy, k, s, a);
    assert s'.tasks.Keys == s.tasks.Keys + {a.id};
    assert |s'.tasks| == |s'.tasks.Keys| && |s.tasks| == |s.tasks.Keys|;
    assert TaskOk(healthy, s', s'.tasks[a.id]);
    forall p, c, x: nat | p in healthy && c in healthy
      ensures Bounded(healthy, k, s', p, c, x)
    {
      BeginKeepsBound(healthy, k, s, a, p, c, x);
    }
  }

  lemma ReadKeepsBound(healthy: seq<SocketAddr>, k: nat, s: System, a: Action, p: SocketAddr, c: SocketAddr, x: nat)
    requires Invariant(healthy, k, s) && a.ReadNext? && Enabled(healthy, k, s, a)
    requires p in healthy && c in healthy
    ensures Bounded(healthy, k, Apply(healthy, k, s, a), p, c, x)
  {
    hide SessionsOn;
    var s' := Apply(healthy, k, s, a);
    var t, t' := s.tasks[a.id], s'.tasks[a.id];
    var addr := healthy[t.next];
    assert healthy[..t'.next] == healthy[..t.next] + [addr];
    assert TaskOk(healthy, s, t) && Bounded(healthy, k, s, p, c, x);
    assert s'.tasks.Keys == s.tasks.Keys;
    assert |s'.tasks| == |s'.tasks.Keys| == |s.tasks|;
    ThreatSize(healthy, s', p, c, x);
    if SessionsOn(s.table, c) <= x {
      if t'.best == Some(p) && t'.best != t.best {
        // The task has just read p: its count there is below what it saw at c, or below x outright
        assert a.id in Threat(healthy, s', p, c, x) ==> SessionsOn(s.table, p) <= x;
      }
      if a.id in Threat(healthy, s', p, c, x) && a.id !in Threat(healthy, s, p, c, x) {
        assert SessionsOn(s.table, p) <= x;
      } else {
        assert Threat(healthy, s', p, c, x) <= Threat(healthy, s, p, c, x);
        SubsetSize(Threat(healthy, s', p, c, x), Threat(healthy, s, p, c, x));
      }
    }
  }

  lemma ReadKeepsTaskOk(healthy: seq<SocketAddr>, k: nat, s: System, a: Action)
    requires Invariant(healthy, k, s) && a.ReadNext? && Enabled(healthy, k, s, a)
    ensures TaskOk(healthy, s, Apply(healthy, k, s, a).tasks[a.id])
  {
    hide SessionsOn, Bounded;
    var t := s.tasks[a.id];
    assert TaskOk(healthy, s, t);
    assert healthy[..t.next + 1] == healthy[..t.next] + [healthy[t.next]];
  }

  lemma ReadKeepsInvariant(healthy: seq<SocketAddr>, k: nat, s: System, a: Action)
    requires Invariant(healthy, k, s) && a.ReadNext? && Enabled(healthy, k, s, a)
    ensures Invariant(healthy, k, Apply(healthy, k, s, a))
  {
    ReadKeepsTaskOk(healthy, k, s, a);
    hide SessionsOn, Bounded, Scanned;
    var s' := Apply(healthy, k, s, a);
    assert s'.tasks.Keys == s.tasks.Keys;
    assert |s'.tasks| == |s'.tasks.Keys| == |s.tasks|;
    forall id | id in s'.tasks
      ensures TaskOk(healthy, s', s'.tasks[id])
    {
      assert id != a.id ==> s'.tasks[id] == s.tasks[id] && TaskOk(healthy, s, s.tasks[id]);
    }
    forall p, c, x: nat | p in healthy && c in healthy
      ensures Bounded(healthy, k, s', p, c, x)
    {
      ReadKeepsBound(healthy, k, s, a, p, c, x);
    }
  }

  lemma InsertKeepsBound(healthy: seq<SocketAddr>, k: nat, s: System, a: Action, p: SocketAddr, c: SocketAddr, x: nat)
    requires Invariant(healthy, k, s) && a.Insert? && Enabled(healthy, k, s, a)
    requires p in healthy && c in healthy
    ensures Bounded(healthy, k, Apply(healthy, k, s, a), p, c, x)
  {
    hide SessionsOn;
    var s', t := Apply(healthy, k, s, a), s.tasks[a.id];
    var info := SessionInfo(t.best.value, t.smf);
    assert TaskOk(healthy, s, t) && Bounded(healthy, k, s, p, c, x);
    CountAfterFreshInsert(s.table, t.seid, info, p);
    CountAfterFreshInsert(s.table, t.seid, info, c);
    assert healthy[..t.next] == healthy;
    if t.best.value == p {
      assert Threat(healthy, s', p, c, x) == Threat(healthy, s, p, c, x) - {a.id};
    } else {
      assert Threat(healthy, s', p, c, x) == Threat(healthy, s, p, c, x);
    }
  }

  lemma InsertKeepsInvariant(healthy: seq<SocketAddr>, k: nat, s: System, a: Action)
    requires Invariant(healthy, k, s) && a.Insert? && Enabled(healthy, k, s, a)
    ensures Invariant(healthy, k, Apply(healthy, k, s, a))
  {
    hide SessionsOn, Bounded;
    var s', t := Apply(healthy, k, s, a), s.tasks[a.id];
    var info := SessionInfo(t.best.value, t.smf);
    assert TaskOk(healthy, s, t);
    assert s'.tasks.Keys == s.tasks.Keys - {a.id};
    assert |s'.tasks| == |s'.tasks.Keys| && |s.tasks| == |s.tasks.Keys|;
    forall id | id in s'.tasks
      ensures TaskOk(healthy, s', s'.tasks[id])
    {
      assert TaskOk(healthy, s, s.tasks[id]);
      forall c | Scanned(healthy, s.tasks[id], c)
        ensures s.tasks[id].least <= SessionsOn(s'.table, c)
      {
        CountAfterFreshInsert(s.table, t.seid, info, c);
      }
    }
    forall p, c, x: nat | p in healthy && c in healthy
      ensures Bounded(healthy, k, s', p, c, x)
    {
      InsertKeepsBound(healthy, k, s, a, p, c, x);
    }
  }

  lemma GiveUpKeepsInvariant(healthy: seq<SocketAddr>, k: nat, s: System, a: Action)
    requires Invariant(healthy, k, s) && a.GiveUp? && Enabled(healthy, k, s, a)
    ensures Invariant(healthy, k, Apply(healthy, k, s, a))
  {
    hide SessionsOn;
    var s' := Apply(healthy, k, s, a);
    assert s'.tasks.Keys == s.tasks.Keys - {a.id};
    assert |s'.tasks| == |s'.tasks.Keys| && |s.tasks| == |s.tasks.Keys|;
    forall p, c, x: nat | p in healthy && c in healthy
      ensures Bounded(healthy, k, s', p, c, x)
    {
      assert Bounded(healthy, k, s, p, c, x);
      assert Threat(healthy, s', p, c, x) == Threat(healthy, s, p, c, x);
    }
  }

  lemma {:induction false} InvariantHolds(healthy: seq<SocketAddr>, k: nat, sched: Schedule)
    requires Legal(healthy, k, sched)
    ensures Invariant(healthy, k, After(healthy, k, sched))
  {
    match sched
    case Empty =>
      var s := After(healthy, k, sched);
      forall p, c, x: nat | p in healthy && c in healthy
        ensures Bounded(healthy, k, s, p, c, x)
      {
        ThreatSize(healthy, s, p, c, x);
      }
    case Then(before, a) =>
      InvariantHolds(healthy, k, before);
      var s := After(healthy, k, before);
      match a
      case Begin(_, _, _) => BeginKeepsInvariant(healthy, k, s, a);
      case ReadNext(_) => ReadKeepsInvariant(healthy, k, s, a);
      case Insert(_) => InsertKeepsInvariant(healthy, k, s, a);
      case GiveUp(_) => GiveUpKeepsInvariant(healthy, k, s, a);
  }

  /**
   * Least-sessions under concurrency: in every interleaving of tasks with fresh SEIDs, over fixed selectable backends
   * and with at most `k` tasks between the start of their scan and their insertion, two backends' session counts never
   * differ by more than `k`, although no task's scan is atomic.
   */
  lemma ConcurrentGapAtMostK(healthy: seq<SocketAddr>, k: nat, sched: Schedule, p: SocketAddr, c: SocketAddr)
    requires Legal(healthy, k, sched) && p in healthy && c in healthy
    ensures var table := After(healthy, k, sched).table;
      SessionsOn(table, p) <= SessionsOn(table, c) + k
  {
    InvariantHolds(healthy, k, sched);
    var s := After(healthy, k, sched);
    assert Bounded(healthy, k, s, p, c, SessionsOn(s.table, c));
  }

  // The scan of one task, and how far apart the counts can really get

  /** The first `n` reads of a task during which no other task inserts anything. */
  function UndisturbedScan(healthy: seq<UpfBackend>, table: Table, t: Task, n: nat): Task
    requires n <= |healthy|
  {
    if n == 0 then t else
    var addr := healthy[n - 1].addr;
    Scan(UndisturbedScan(healthy, table, t, n - 1), addr, SessionsOn(table, addr))
  }

  /** Left alone, a task chooses what the sequential least-sessions selection chooses. */
  lemma {:induction false} UndisturbedScanIsSelection(healthy: seq<UpfBackend>, table: Table, seid: Seid,
                                                     smf: SocketAddr, n: nat)
    requires n <= |healthy|
    ensures var t := UndisturbedScan(healthy, table, Task(seid, smf, 0, None, USIZE_MAX), n);
      && t.next == n && t.least == LeastCount(healthy, table, n)
      && t.best == (match LeastIndex(healthy, table, n) case Some(i) => Some(healthy[i].addr) case None => None)
      && (n == |healthy| ==> t.best == SelectLeastSessions(healthy, table))
  {
    if n > 0 {
      UndisturbedScanIsSelection(healthy, table, seid, smf, n - 1);
    }
  }

  /** The system after the task `id` alone has read the first `n` backends. */
  function ReadAll(healthy: seq<SocketAddr>, k: nat, s: System, id: nat, n: nat): (after: System)
    requires id in s.tasks && s.tasks[id].next == 0 && n <= |healthy|
    ensures id in after.tasks && after.tasks[id].next == n
    ensures after == s.(tasks := s.tasks[id := after.tasks[id]])
  {
    if n == 0 then s else Apply(healthy, k, ReadAll(healthy, k, s, id, n - 1), ReadNext(id))
  }

  lemma {:induction false} ReadAllIsScan(healthy: seq<UpfBackend>, k: nat, s: System, id: nat, n: nat)
    requires id in s.tasks && s.tasks[id].next == 0 && n <= |healthy|
    ensures ReadAll(AddrsOf(healthy), k, s, id, n).tasks[id] == UndisturbedScan(healthy, s.table, s.tasks[id], n)
  {
    if n > 0 {
      ReadAllIsScan(healthy, k, s, id, n - 1);
    }
  }

  /** A task that runs alone, reads every backend and inserts, binds its SEID to the sequential choice. */
  lemma LoneTaskBindsSelection(healthy: seq<UpfBackend>, k: nat, table: Table, id: nat, seid: Seid, smf: SocketAddr)
    requires 0 < k && seid !in table && SelectLeastSessions(healthy, table).Some?
    ensures var addrs, s := AddrsOf(healthy), System(table, map[]);
      && Enabled(addrs, k, s, Begin(id, seid, smf))
      && var begun := Apply(addrs, k, s, Begin(id, seid, smf));
         var scanned := ReadAll(addrs, k, begun, id, |addrs|);
      && Enabled(addrs, k, scanned, Insert(id))
      && Apply(addrs, k, scanned, Insert(id))
         == System(table[seid := SessionInfo(SelectLeastSessions(healthy, table).value, smf)], map[])
  {
    var addrs, s := AddrsOf(healthy), System(table, map[]);
    var begun := Apply(addrs, k, s, Begin(id, seid, smf));
    var scanned := ReadAll(addrs, k, begun, id, |addrs|);
    ReadAllIsScan(healthy, k, begun, id, |healthy|);
    UndisturbedScanIsSelection(healthy, table, seid, smf, |healthy|);
    ScanKeepsIdentity(healthy, table, begun.tasks[id], |healthy|);
    assert scanned.tasks - {id} == map[];
  }

  lemma {:induction false} ScanKeepsIdentity(healthy: seq<UpfBackend>, table: Table, t: Task, n: nat)
    requires n <= |healthy|
    ensures UndisturbedScan(healthy, table, t, n).seid == t.seid && UndisturbedScan(healthy, table, t, n).smf == t.smf
  {
    if n > 0 {
      ScanKeepsIdentity(healthy, table, t, n - 1);
    }
  }

  function SeidsBelow(n: nat, info: SessionInfo): (table: Table)
    ensures forall i: nat :: i in table <==> i < n
  {
    if n == 0 then map[] else SeidsBelow(n - 1, info)[n - 1 := info]
  }

  function ReadyTasks(from: nat, to: nat, smf: SocketAddr, p: SocketAddr): map<nat, Task> {
    map i: nat | from <= i < to :: Task(i, smf, 2, Some(p), 0)
  }

  /** `n` tasks scan the two backends of an empty table before any of them inserts. */
  ghost function AllScan(n: nat, smf: SocketAddr): Schedule {
    if n == 0 then Empty else
    Then(Then(Then(AllScan(n - 1, smf), Begin(n - 1, n - 1, smf)), ReadNext(n - 1)), ReadNext(n - 1))
  }

  lemma OneMoreAction(healthy: seq<SocketAddr>, k: nat, before: Schedule, a: Action)
    requires Legal(healthy, k, before) && Enabled(healthy, k, After(healthy, k, before), a)
    ensures Legal(healthy, k, Then(before, a))
    ensures After(healthy, k, Then(before, a)) == Apply(healthy, k, After(healthy, k, before), a)
  {
  }

  /** Over an empty table, a task that starts and reads both backends settles for the first one. */
  lemma ScanOfEmptyTable(p: SocketAddr, c: SocketAddr, k: nat, tasks: map<nat, Task>, t: Task, id: nat)
    requires id in tasks && tasks[id] == t && t.next < 2
    requires (t.next == 0 && t.least == USIZE_MAX) || t.least == 0
    ensures var s := System(map[], tasks);
      && Enabled([p, c], k, s, ReadNext(id))
      && Apply([p, c], k, s, ReadNext(id))
         == System(map[], tasks[id := if t.next == 0 && t.least == USIZE_MAX then Task(t.seid, t.smf, 1, Some(p), 0)
                                      else t.(next := t.next + 1)])
  {
    assert BoundTo(map[], p) == {} && BoundTo(map[], c) == {};
  }

  /** The tasks after a new one has started, and after it has read the first backend. */
  function Started(tasks: map<nat, Task>, n: nat, smf: SocketAddr): map<nat, Task> {
    tasks[n := Task(n, smf, 0, None, USIZE_MAX)]
  }

  function HalfScanned(tasks: map<nat, Task>, n: nat, smf: SocketAddr, p: SocketAddr): map<nat, Task> {
    tasks[n := Task(n, smf, 1, Some(p), 0)]
  }

  lemma OneTaskSteps(p: SocketAddr, c: SocketAddr, k: nat, n: nat, smf: SocketAddr)
    requires n < k
    ensures var h, tasks := [p, c], ReadyTasks(0, n, smf, p);
      var started, half := System(map[], Started(tasks, n, smf)), System(map[], HalfScanned(tasks, n, smf, p));
      && Enabled(h, k, System(map[], tasks), Begin(n, n, smf))
      && Apply(h, k, System(map[], tasks), Begin(n, n, smf)) == started
      && Enabled(h, k, started, ReadNext(n)) && Apply(h, k, started, ReadNext(n)) == half
      && Enabled(h, k, half, ReadNext(n))
      && Apply(h, k, half, ReadNext(n)) == System(map[], ReadyTasks(0, n + 1, smf, p))
  {
    TasksBelow(n, smf, p);
    OneMoreReady(n, smf, p);
    var tasks := ReadyTasks(0, n, smf, p);
    var tasks1, tasks2 := Started(tasks, n, smf), HalfScanned(tasks, n, smf, p);
    hide ReadyTasks;
    ScanOfEmptyTable(p, c, k, tasks1, tasks1[n], n);
    assert tasks1[n := Task(n, smf, 1, Some(p), 0)] == tasks2;
    ScanOfEmptyTable(p, c, k, tasks2, tasks2[n], n);
    assert tasks2[n := Task(n, smf, 2, Some(p), 0)] == tasks[n := Task(n, smf, 2, Some(p), 0)];
    BeginAddsTask([p, c], k, tasks, n, smf);
  }

  lemma OneTaskScans(p: SocketAddr, c: SocketAddr, k: nat, n: nat, smf: SocketAddr, before: Schedule)
    requires Legal([p, c], k, before) && n < k
    requires After([p, c], k, before) == System(map[], ReadyTasks(0, n, smf, p))
    ensures var sched := Then(Then(Then(before, Begin(n, n, smf)), ReadNext(n)), ReadNext(n));
      Legal([p, c], k, sched) && After([p, c], k, sched) == System(map[], ReadyTasks(0, n + 1, smf, p))
  {
    hide *;
    OneTaskSteps(p, c, k, n, smf);
    OneMoreAction([p, c], k, before, Begin(n, n, smf));
    OneMoreAction([p, c], k, Then(before, Begin(n, n, smf)), ReadNext(n));
    OneMoreAction([p, c], k, Then(Then(before, Begin(n, n, smf)), ReadNext(n)), ReadNext(n));
  }

  lemma BeginAddsTask(h: seq<SocketAddr>, k: nat, tasks: map<nat, Task>, n: nat, smf: SocketAddr)
    requires Enabled(h, k, System(map[], tasks), Begin(n, n, smf))
    ensures Apply(h, k, System(map[], tasks), Begin(n, n, smf))
         == System(map[], tasks[n := Task(n, smf, 0, None, USIZE_MAX)])
  {
  }

  lemma OneMoreReady(n: nat, smf: SocketAddr, p: SocketAddr)
    ensures ReadyTasks(0, n, smf, p)[n := Task(n, smf, 2, Some(p), 0)] == ReadyTasks(0, n + 1, smf, p)
  {
  }

  lemma {:induction false} AllScanState(p: SocketAddr, c: SocketAddr, k: nat, n: nat, smf: SocketAddr)
    requires n <= k
    ensures Legal([p, c], k, AllScan(n, smf))
    ensures After([p, c], k, AllScan(n, smf)) == System(map[], ReadyTasks(0, n, smf, p))
  {
    if n == 0 {
      assert ReadyTasks(0, 0, smf, p) == map[];
    } else {
      AllScanState(p, c, k, n - 1, smf);
      hide Legal, After;
      OneTaskScans(p, c, k, n - 1, smf, AllScan(n - 1, smf));
    }
  }

  lemma {:induction false} TasksBelow(n: nat, smf: SocketAddr, p: SocketAddr)
    ensures |ReadyTasks(0, n, smf, p)| == n
  {
    if n == 0 {
      assert ReadyTasks(0, 0, smf, p) == map[];
    } else {
      TasksBelow(n - 1, smf, p);
      assert ReadyTasks(0, n, smf, p) == ReadyTasks(0, n - 1, smf, p)[n - 1 := Task(n - 1, smf, 2, Some(p), 0)];
    }
  }

  ghost function ThenInsert(k: nat, n: nat, smf: SocketAddr): Schedule {
    if n == 0 then AllScan(k, smf) else Then(ThenInsert(k, n - 1, smf), Insert(n - 1))
  }

  lemma {:induction false} ThenInsertState(p: SocketAddr, c: SocketAddr, k: nat, n: nat, smf: SocketAddr)
    requires n <= k
    ensures Legal([p, c], k, ThenInsert(k, n, smf))
    ensures After([p, c], k, ThenInsert(k, n, smf))
         == System(SeidsBelow(n, SessionInfo(p, smf)), ReadyTasks(n, k, smf, p))
  {
    if n == 0 {
      AllScanState(p, c, k, k, smf);
    } else {
      ThenInsertState(p, c, k, n - 1, smf);
      assert SeidsBelow(n, SessionInfo(p, smf))
          == SeidsBelow(n - 1, SessionInfo(p, smf))[n - 1 := SessionInfo(p, smf)];
      assert ReadyTasks(n, k, smf, p) == ReadyTasks(n - 1, k, smf, p) - {n - 1};
    }
  }

  lemma {:induction false} CountSeidsBelow(n: nat, info: SessionInfo, upf: SocketAddr)
    ensures SessionsOn(SeidsBelow(n, info), upf) == if info.upf == upf then n else 0
  {
    if n == 0 {
      assert BoundTo(SeidsBelow(0, info), upf) == {};
    } else {
      CountSeidsBelow(n - 1, info, upf);
      assert SeidsBelow(n, info) == SeidsBelow(n - 1, info)[n - 1 := info];
      CountAfterFreshInsert(SeidsBelow(n - 1, info), n - 1, info, upf);
    }
  }

  /** The bound is exact: with two backends and any `k`, some schedule drives the counts exactly `k` apart. */
  lemma GapOfKIsReached(p: SocketAddr, c: SocketAddr, k: nat, smf: SocketAddr)
    requires p != c
    ensures exists sched :: Legal([p, c], k, sched)
              && SessionsOn(After([p, c], k, sched).table, p) == SessionsOn(After([p, c], k, sched).table, c) + k
  {
    var sched := ThenInsert(k, k, smf);
    ThenInsertState(p, c, k, k, smf);
    CountSeidsBelow(k, SessionInfo(p, smf), p);
    CountSeidsBelow(k, SessionInfo(p, smf), c);
    assert Legal([p, c], k, sched);
  }
}
