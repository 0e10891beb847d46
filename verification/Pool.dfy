/** The UPF pool: which backends may be chosen, and the three load-balancing strategies. */
module Pool {
  import opened Types
  import opened Sessions

  datatype UpfBackend = UpfBackend(addr: SocketAddr, health: HealthStatus, weight: nat)

  datatype PoolState = PoolState(backends: seq<UpfBackend>, nextIndex: nat, strategy: Strategy)

  /** The chosen address, if any, and the ticket counter afterwards. */
  datatype Selection = Selection(choice: Option<SocketAddr>, next: nat)

  function NewBackend(addr: SocketAddr): UpfBackend {
    UpfBackend(addr, Unknown, 1)
  }

  function NewBackends(addrs: seq<SocketAddr>): (backends: seq<UpfBackend>)
    ensures AddrsOf(backends) == addrs
  {
    seq(|addrs|, i requires 0 <= i < |addrs| => NewBackend(addrs[i]))
  }

  function AddrsOf(backends: seq<UpfBackend>): seq<SocketAddr> {
    seq(|backends|, i requires 0 <= i < |backends| => backends[i].addr)
  }

  predicate Selectable(b: UpfBackend) {
    b.health == Healthy || b.health == Unknown
  }

  /** The backends that may receive new sessions, in pool order. */
  function HealthyOf(backends: seq<UpfBackend>): seq<UpfBackend> {
    if backends == [] then [] else
    var last := backends[|backends| - 1];
    HealthyOf(backends[..|backends| - 1]) + if Selectable(last) then [last] else []
  }

  // Pool changes

  function Added(backends: seq<UpfBackend>, addr: SocketAddr): seq<UpfBackend> {
    if |backends| >= MAX_BACKENDS || addr in AddrsOf(backends) then backends else backends + [NewBackend(addr)]
  }

  function Removed(backends: seq<UpfBackend>, addr: SocketAddr): seq<UpfBackend> {
    if backends == [] then [] else
    var last := backends[|backends| - 1];
    Removed(backends[..|backends| - 1], addr) + if last.addr != addr then [last] else []
  }

  /** Only the first backend with the address changes. */
  function HealthUpdated(backends: seq<UpfBackend>, addr: SocketAddr, status: HealthStatus): seq<UpfBackend> {
    if backends == [] then [] else
    if backends[0].addr == addr then [backends[0].(health := status)] + backends[1..]
    else [backends[0]] + HealthUpdated(backends[1..], addr, status)
  }

  // Selection

  function SelectRoundRobin(addrs: seq<SocketAddr>, next: nat): Selection {
    if addrs == [] then Selection(None, next)
    else Selection(Some(addrs[next % |addrs|]), (next + 1) % USIZE_MODULUS)
  }

  /** The running minimum of the scan over the first `k` backends, `USIZE_MAX` before any is chosen. */
  function LeastCount(healthy: seq<UpfBackend>, table: Table, k: nat): nat
    requires k <= |healthy|
    decreases k, 1
  {
    match LeastIndex(healthy, table, k)
    case Some(i) => SessionsOn(table, healthy[i].addr)
    case None => USIZE_MAX
  }

  function LeastIndex(healthy: seq<UpfBackend>, table: Table, k: nat): (index: Option<nat>)
    requires k <= |healthy|
    ensures index.Some? ==> index.value < k
    decreases k, 0
  {
    if k == 0 then None else
    if SessionsOn(table, healthy[k - 1].addr) < LeastCount(healthy, table, k - 1) then Some(k - 1)
    else LeastIndex(healthy, table, k - 1)
  }

  function SelectLeastSessions(healthy: seq<UpfBackend>, table: Table): Option<SocketAddr> {
    match LeastIndex(healthy, table, |healthy|)
    case Some(i) => Some(healthy[i].addr)
    case None => None
  }

  /** Total weight of the first `k` backends. */
  function WeightBefore(backends: seq<UpfBackend>, k: nat): nat
    requires k <= |backends|
  {
    if k == 0 then 0 else WeightBefore(backends, k - 1) + backends[k - 1].weight
  }

  /** The sum the proxy computes: 32 bits wide. */
  function TotalWeight(backends: seq<UpfBackend>): nat {
    WeightBefore(backends, |backends|) % U32_MODULUS
  }

  /** The first backend at or after `k` whose cumulative weight exceeds `slot`; the length when there is none. */
  function OwnerFrom(backends: seq<UpfBackend>, slot: nat, k: nat): (owner: nat)
    requires k <= |backends|
    ensures k <= owner <= |backends|
    decreases |backends| - k
  {
    if k == |backends| || slot < WeightBefore(backends, k + 1) then k else OwnerFrom(backends, slot, k + 1)
  }

  function SelectWeighted(healthy: seq<UpfBackend>, next: nat): Selection {
    if healthy == [] then Selection(None, next) else
    var total := TotalWeight(healthy);
    if total == 0 then SelectRoundRobin(AddrsOf(healthy), next) else
    var owner := OwnerFrom(healthy, next % total, 0);
    Selection(if owner < |healthy| then Some(healthy[owner].addr) else None, (next + 1) % USIZE_MODULUS)
  }

  function Select(pool: PoolState, table: Table): Selection {
    var healthy := HealthyOf(pool.backends);
    match pool.strategy
    case RoundRobin => SelectRoundRobin(AddrsOf(healthy), pool.nextIndex)
    case LeastSessions => Selection(SelectLeastSessions(healthy, table), pool.nextIndex)
    case Weighted => SelectWeighted(healthy, pool.nextIndex)
  }

  // Properties of the pool and of one selection

  lemma {:induction false} HealthyExactly(backends: seq<UpfBackend>, b: UpfBackend)
    ensures b in HealthyOf(backends) <==> b in backends && Selectable(b)
    ensures |HealthyOf(backends)| <= |backends|
  {
    if backends != [] {
      var front := backends[..|backends| - 1];
      assert backends == front + [backends[|backends| - 1]];
      HealthyExactly(front, b);
    }
  }

  /** `kept` are the elements of `all` at these positions, in their order. */
  ghost predicate InOrder(all: seq<UpfBackend>, kept: seq<UpfBackend>, positions: seq<nat>) {
    && |positions| == |kept|
    && (forall k :: 0 <= k < |kept| ==> positions[k] < |all| && kept[k] == all[positions[k]])
    && (forall j, k :: 0 <= j < k < |positions| ==> positions[j] < positions[k])
  }

  lemma OneMoreInOrder(all: seq<UpfBackend>, kept: seq<UpfBackend>, positions: seq<nat>)
    requires all != [] && InOrder(all[..|all| - 1], kept, positions)
    ensures InOrder(all, kept, positions)
    ensures InOrder(all, kept + [all[|all| - 1]], positions + [|all| - 1])
  {
  }

  /** The selectable backends are those of health `Healthy` or `Unknown`, each once and in pool order. */
  lemma {:induction false} HealthyInPoolOrder(backends: seq<UpfBackend>) returns (positions: seq<nat>)
    ensures InOrder(backends, HealthyOf(backends), positions)
    ensures forall i :: 0 <= i < |backends| ==>
      (i in positions <==> backends[i].health == Healthy || backends[i].health == Unknown)
  {
    positions := [];
    if backends != [] {
      var front := backends[..|backends| - 1];
      positions := HealthyInPoolOrder(front);
      OneMoreInOrder(backends, HealthyOf(front), positions);
      assert forall i :: 0 <= i < |front| ==> backends[i] == front[i];
      assert forall k :: 0 <= k < |positions| ==> positions[k] < |front|;
      if Selectable(backends[|front|]) {
        positions := positions + [|front|];
      }
    }
  }

  /** What a removal leaves are the records with other addresses, each as it was and in pool order. */
  lemma {:induction false} RemovedInPoolOrder(backends: seq<UpfBackend>, addr: SocketAddr)
    returns (positions: seq<nat>)
    ensures InOrder(backends, Removed(backends, addr), positions)
    ensures forall i :: 0 <= i < |backends| ==> (i in positions <==> backends[i].addr != addr)
  {
    positions := [];
    if backends != [] {
      var front := backends[..|backends| - 1];
      positions := RemovedInPoolOrder(front, addr);
      OneMoreInOrder(backends, Removed(front, addr), positions);
      assert forall i :: 0 <= i < |front| ==> backends[i] == front[i];
      assert forall k :: 0 <= k < |positions| ==> positions[k] < |front|;
      if backends[|front|].addr != addr {
        positions := positions + [|front|];
      }
    }
  }

  lemma {:induction false} HealthyDistinct(backends: seq<UpfBackend>)
    requires Distinct(AddrsOf(backends))
    ensures Distinct(AddrsOf(HealthyOf(backends)))
  {
    if backends != [] {
      var front, last := backends[..|backends| - 1], backends[|backends| - 1];
      assert AddrsOf(front) == AddrsOf(backends)[..|front|];
      HealthyDistinct(front);
      forall b | b in HealthyOf(front)
        ensures b.addr != last.addr
      {
        HealthyExactly(front, b);
        var i :| 0 <= i < |front| && front[i] == b;
        assert AddrsOf(backends)[i] != AddrsOf(backends)[|front|];
      }
      var addrs := AddrsOf(HealthyOf(front));
      assert forall i :: 0 <= i < |addrs| ==>
        addrs[i] == HealthyOf(front)[i].addr && HealthyOf(front)[i] in HealthyOf(front);
      assert AddrsOf(HealthyOf(backends)) == addrs + if Selectable(last) then [last.addr] else [];
    }
  }

  /** An addition that takes effect keeps every record and puts a selectable one of weight one last. */
  lemma {:induction false} AddedRecord(backends: seq<UpfBackend>, addr: SocketAddr)
    requires |backends| < 64 && addr !in AddrsOf(backends)
    ensures Added(backends, addr) == backends + [UpfBackend(addr, Unknown, 1)]
    ensures AddrsOf(HealthyOf(Added(backends, addr))) == AddrsOf(HealthyOf(backends)) + [addr]
  {
    var b := UpfBackend(addr, Unknown, 1);
    var more := backends + [b];
    assert Added(backends, addr) == more;
    assert more[..|more| - 1] == backends;
    assert HealthyOf(more) == HealthyOf(backends) + [b];
  }

  /** Adding keeps addresses distinct and adds the address exactly when there is room for it. */
  lemma AddedMembership(backends: seq<UpfBackend>, addr: SocketAddr, a: SocketAddr)
    ensures var after := Added(backends, addr);
      && (a in AddrsOf(after) <==>
          a in AddrsOf(backends) || (a == addr && |backends| < 64))
      && (Distinct(AddrsOf(backends)) ==> Distinct(AddrsOf(after)))
  {
    if Added(backends, addr) != backends {
      assert AddrsOf(Added(backends, addr)) == AddrsOf(backends) + [addr];
    }
  }

  lemma {:induction false} RemovedAddrs(backends: seq<UpfBackend>, addr: SocketAddr)
    ensures forall a :: a in AddrsOf(Removed(backends, addr)) <==> a in AddrsOf(backends) && a != addr
    ensures Distinct(AddrsOf(backends)) ==> Distinct(AddrsOf(Removed(backends, addr)))
    ensures |Removed(backends, addr)| == |backends| <==> addr !in AddrsOf(backends)
    ensures |Removed(backends, addr)| <= |backends|
    ensures addr !in AddrsOf(backends) ==> Removed(backends, addr) == backends
  {
    if backends != [] {
      var front, last := backends[..|backends| - 1], backends[|backends| - 1];
      RemovedAddrs(front, addr);
      assert backends == front + [last];
      assert AddrsOf(backends) == AddrsOf(front) + [last.addr];
      assert AddrsOf(Removed(backends, addr))
          == AddrsOf(Removed(front, addr)) + if last.addr != addr then [last.addr] else [];
      if Distinct(AddrsOf(backends)) {
        assert AddrsOf(front) == AddrsOf(backends)[..|front|];
        var kept := AddrsOf(Removed(front, addr));
        assert forall i :: 0 <= i < |kept| ==> kept[i] in kept;
        assert AddrsOf(backends)[|front|] == last.addr;
      }
    }
  }

  lemma {:induction false} HealthUpdatedKeepsAddrs(backends: seq<UpfBackend>, addr: SocketAddr, status: HealthStatus)
    ensures AddrsOf(HealthUpdated(backends, addr, status)) == AddrsOf(backends)
  {
    if backends != [] && backends[0].addr != addr {
      HealthUpdatedKeepsAddrs(backends[1..], addr, status);
      assert AddrsOf(backends) == [backends[0].addr] + AddrsOf(backends[1..]);
      assert AddrsOf(HealthUpdated(backends, addr, status))
          == [backends[0].addr] + AddrsOf(HealthUpdated(backends[1..], addr, status));
    }
  }

  /** The update reaches the first backend with the address, at `i`, or nothing when there is none. */
  lemma {:induction false} HealthUpdatedAt(backends: seq<UpfBackend>, addr: SocketAddr, status: HealthStatus, i: nat)
    requires i <= |backends| && forall j :: 0 <= j < i ==> backends[j].addr != addr
    requires i < |backends| ==> backends[i].addr == addr
    ensures HealthUpdated(backends, addr, status)
         == if i < |backends| then backends[i := backends[i].(health := status)] else backends
  {
    if i > 0 {
      var rest := backends[1..];
      HealthUpdatedAt(rest, addr, status, i - 1);
      assert backends == [backends[0]] + rest;
    }
  }

  /** The scan keeps the earliest backend whose session count is smallest, among those below the sentinel. */
  lemma {:induction false} LeastIsFirstMinimum(healthy: seq<UpfBackend>, table: Table, k: nat)
    requires k <= |healthy|
    ensures forall j :: 0 <= j < k ==>
      (LeastCount(healthy, table, k) <= SessionsOn(table, healthy[j].addr)
       || USIZE_MAX <= SessionsOn(table, healthy[j].addr))
    ensures match LeastIndex(healthy, table, k)
            case Some(i) =>
              && SessionsOn(table, healthy[i].addr) < USIZE_MAX
              && forall j :: 0 <= j < i ==> SessionsOn(table, healthy[i].addr) < SessionsOn(table, healthy[j].addr)
            case None => forall j :: 0 <= j < k ==> USIZE_MAX <= SessionsOn(table, healthy[j].addr)
  {
    if k > 0 {
      LeastIsFirstMinimum(healthy, table, k - 1);
      var count, least := SessionsOn(table, healthy[k - 1].addr), LeastCount(healthy, table, k - 1);
      if count < least {
        assert LeastIndex(healthy, table, k) == Some(k - 1) && LeastCount(healthy, table, k) == count;
      } else {
        assert LeastIndex(healthy, table, k) == LeastIndex(healthy, table, k - 1);
        assert LeastCount(healthy, table, k) == least;
      }
    }
  }

  lemma {:induction false} WeightMonotone(backends: seq<UpfBackend>, i: nat, j: nat)
    requires i <= j <= |backends|
    ensures WeightBefore(backends, i) <= WeightBefore(backends, j)
  {
    if i < j {
      WeightMonotone(backends, i, j - 1);
    }
  }

  /** The cumulative scan finds backend `i` exactly for the slots of its weight interval. */
  lemma {:induction false} OwnerOwnsItsInterval(backends: seq<UpfBackend>, slot: nat, k: nat, i: nat)
    requires k <= i < |backends|
    requires k == 0 || WeightBefore(backends, k) <= slot
    ensures OwnerFrom(backends, slot, k) == i
       <==> WeightBefore(backends, i) <= slot < WeightBefore(backends, i + 1)
    decreases |backends| - k
  {
    if slot < WeightBefore(backends, k + 1) {
      if k < i {
        WeightMonotone(backends, k + 1, i);
      }
    } else if k < i {
      OwnerOwnsItsInterval(backends, slot, k + 1, i);
    }
  }

  /** The scan never runs off the end, even when the 32-bit sum has wrapped. */
  lemma {:induction false} OwnerExists(backends: seq<UpfBackend>, slot: nat, k: nat)
    requires k <= |backends|
    requires slot < WeightBefore(backends, |backends|)
    requires k == 0 || WeightBefore(backends, k) <= slot
    ensures OwnerFrom(backends, slot, k) < |backends|
    decreases |backends| - k
  {
    if k < |backends| && slot >= WeightBefore(backends, k + 1) {
      OwnerExists(backends, slot, k + 1);
    }
  }

  lemma WeightedAlwaysFinds(healthy: seq<UpfBackend>, next: nat)
    requires healthy != []
    ensures SelectWeighted(healthy, next).choice.Some?
  {
    var total := TotalWeight(healthy);
    if total != 0 {
      OwnerExists(healthy, next % total, 0);
    }
  }

  /** Whatever the strategy, the chosen UPF is a selectable member of the pool; without one nothing is chosen. */
  lemma SelectedIsHealthyMember(pool: PoolState, table: Table)
    ensures var choice := Select(pool, table).choice;
      && (choice.Some? ==> choice.value in AddrsOf(pool.backends))
      && (choice.Some? ==> exists b :: b in pool.backends && b.addr == choice.value && Selectable(b))
      && (HealthyOf(pool.backends) == [] ==> choice == None)
      && (HealthyOf(pool.backends) != [] && pool.strategy != LeastSessions ==> choice.Some?)
      && (pool.strategy == LeastSessions ==>
            (choice == None <==>
             forall b :: b in HealthyOf(pool.backends) ==> 0xFFFF_FFFF_FFFF_FFFF <= SessionsOn(table, b.addr)))
  {
    var healthy := HealthyOf(pool.backends);
    var choice := Select(pool, table).choice;
    if healthy != [] {
      WeightedAlwaysFinds(healthy, pool.nextIndex);
      LeastIsFirstMinimum(healthy, table, |healthy|);
    }
    if choice.Some? {
      var b :| b in healthy && b.addr == choice.value;
      HealthyExactly(pool.backends, b);
      var i :| 0 <= i < |pool.backends| && pool.backends[i] == b;
      assert AddrsOf(pool.backends)[i] == b.addr;
    }
  }

  /** Least-sessions picks the first selectable backend, in pool order, among those with the fewest sessions. */
  lemma LeastSessionsPicksFirstMinimum(pool: PoolState, table: Table) returns (i: nat)
    requires pool.strategy == LeastSessions && Select(pool, table).choice.Some?
    ensures var healthy := HealthyOf(pool.backends);
      && i < |healthy| && Select(pool, table).choice == Some(healthy[i].addr)
      && (forall j :: 0 <= j < i ==> SessionsOn(table, healthy[i].addr) < SessionsOn(table, healthy[j].addr))
      && (forall j :: i < j < |healthy| ==> SessionsOn(table, healthy[i].addr) <= SessionsOn(table, healthy[j].addr))
  {
    var healthy := HealthyOf(pool.backends);
    LeastIsFirstMinimum(healthy, table, |healthy|);
    i := LeastIndex(healthy, table, |healthy|).value;
  }

  /** Weights that add up to exactly 2^32 sum to zero in 32 bits, and the selection falls back to round robin. */
  lemma WrappedWeightsFallBack(healthy: seq<UpfBackend>, next: nat)
    requires WeightBefore(healthy, |healthy|) == 0x1_0000_0000
    ensures SelectWeighted(healthy, next) == SelectRoundRobin(AddrsOf(healthy), next)
  {
    assert TotalWeight(healthy) == 0;
  }

  /** Tickets are drawn one at a time, modulo the width of the counter, and never by least-sessions. */
  lemma SelectDrawsOneTicket(pool: PoolState, table: Table)
    requires pool.nextIndex < USIZE_MODULUS
    ensures var s := Select(pool, table);
      s.next == if pool.strategy != LeastSessions && s.choice.Some? then (pool.nextIndex + 1) % USIZE_MODULUS
                else pool.nextIndex
  {
    SelectedIsHealthyMember(pool, table);
  }

  class UpfPool {
    var backends: seq<UpfBackend>
    var nextIndex: nat
    const strategy: Strategy
    const maxBackends: nat

    ghost predicate Valid()
      reads this
    {
      nextIndex < USIZE_MODULUS && maxBackends == MAX_BACKENDS
    }

    ghost function State(): PoolState
      reads this
    {
      PoolState(backends, nextIndex, strategy)
    }

    constructor (addrs: seq<SocketAddr>, strategy: Strategy)
      ensures Valid() && State() == PoolState(NewBackends(addrs), 0, strategy)
    {
      this.backends := seq(|addrs|, i requires 0 <= i < |addrs| => UpfBackend(addrs[i], Unknown, 1));
      this.nextIndex := 0;
      this.strategy := strategy;
      this.maxBackends := 64;
      new;
      assert backends == NewBackends(addrs);
    }

    method AddBackend(addr: SocketAddr) returns (added: bool)
      requires Valid()
      modifies this`backends
      ensures Valid()
      ensures backends == Added(old(backends), addr)
      ensures added <==> addr in AddrsOf(backends) && addr !in AddrsOf(old(backends))
    {
      if |backends| >= maxBackends {
        return false;
      }
      if exists b :: b in backends && b.addr == addr {
        assert addr in AddrsOf(backends) by {
          var i :| 0 <= i < |backends| && backends[i].addr == addr;
          assert AddrsOf(backends)[i] == addr;
        }
        return false;
      }
      backends := backends + [UpfBackend(addr, Unknown, 1)];
      assert AddrsOf(backends)[|backends| - 1] == addr;
      return true;
    }

    method RemoveBackend(addr: SocketAddr) returns (removed: bool)
      requires Valid()
      modifies this`backends
      ensures Valid()
      ensures backends == Removed(old(backends), addr)
      ensures removed <==> addr in AddrsOf(old(backends))
    {
      var originalLen := |backends|;
      RemovedAddrs(backends, addr);
      backends := Removed(backends, addr);
      removed := |backends| != originalLen;
    }

    method BackendCount() returns (n: nat)
      ensures n == |backends|
    {
      n := |backends|;
    }

    method AllBackends() returns (all: seq<UpfBackend>)
      ensures all == backends
    {
      all := backends;
    }

    method UpdateHealth(addr: SocketAddr, status: HealthStatus)
      requires Valid()
      modifies this`backends
      ensures Valid()
      ensures backends == HealthUpdated(old(backends), addr, status)
    {
      var i := 0;
      while i < |backends|
        invariant 0 <= i <= |backends|
        invariant backends == old(backends)
        invariant forall j :: 0 <= j < i ==> backends[j].addr != addr
      {
        if backends[i].addr == addr {
          HealthUpdatedAt(backends, addr, status, i);
          backends := backends[i := backends[i].(health := status)];
          return;
        }
        i := i + 1;
      }
      HealthUpdatedAt(backends, addr, status, i);
    }

    method HealthyBackends() returns (result: seq<UpfBackend>)
      ensures result == HealthyOf(backends)
    {
      result := [];
      for i := 0 to |backends|
        invariant result == HealthyOf(backends[..i])
      {
        assert backends[..i + 1][..i] == backends[..i];
        var health := backends[i].health;
        if health == Healthy || health == Unknown {
          result := result + [backends[i]];
        }
      }
      assert backends[..|backends|] == backends;
    }

    method SelectUpf(table: SessionTable) returns (choice: Option<SocketAddr>)
      requires Valid()
      modifies this`nextIndex
      ensures Valid()
      ensures var s := Select(old(State()), table.sessions); choice == s.choice && nextIndex == s.next
    {
      match strategy
      case RoundRobin => choice := SelectByRoundRobin();
      case LeastSessions => choice := SelectByLeastSessions(table);
      case Weighted => choice := SelectByWeight();
    }

    /** `fetch_add(1)`: hands out the current ticket and advances the counter, wrapping at its width. */
    method DrawTicket() returns (ticket: nat)
      requires Valid()
      modifies this`nextIndex
      ensures Valid()
      ensures ticket == old(nextIndex) && nextIndex == (old(nextIndex) + 1) % USIZE_MODULUS
    {
      ticket := nextIndex;
      nextIndex := if nextIndex == USIZE_MAX then 0 else nextIndex + 1;
    }

    method SelectByRoundRobin() returns (choice: Option<SocketAddr>)
      requires Valid()
      modifies this`nextIndex
      ensures Valid()
      ensures Selection(choice, nextIndex) == SelectRoundRobin(AddrsOf(HealthyOf(backends)), old(nextIndex))
    {
      var healthy := HealthyBackends();
      if healthy == [] {
        return None;
      }
      var ticket := DrawTicket();
      choice := Some(healthy[ticket % |healthy|].addr);
    }

    method SelectByLeastSessions(table: SessionTable) returns (choice: Option<SocketAddr>)
      ensures choice == SelectLeastSessions(HealthyOf(backends), table.sessions)
    {
      var healthy := HealthyBackends();
      if healthy == [] {
        return None;
      }
      var minSessions := USIZE_MAX;
      choice := None;
      for k := 0 to |healthy|
        invariant minSessions == LeastCount(healthy, table.sessions, k)
        invariant choice == match LeastIndex(healthy, table.sessions, k)
                            case Some(i) => Some(healthy[i].addr)
                            case None => None
      {
        var count := table.CountByUpf(healthy[k].addr);
        if count < minSessions {
          minSessions := count;
          choice := Some(healthy[k].addr);
        }
      }
    }

    method SelectByWeight() returns (choice: Option<SocketAddr>)
      requires Valid()
      modifies this`nextIndex
      ensures Valid()
      ensures Selection(choice, nextIndex) == SelectWeighted(HealthyOf(backends), old(nextIndex))
    {
      var healthy := HealthyBackends();
      if healthy == [] {
        return None;
      }
      var totalWeight := 0;
      for k := 0 to |healthy|
        invariant totalWeight == WeightBefore(healthy, k) % U32_MODULUS
      {
        totalWeight := (totalWeight + healthy[k].weight) % U32_MODULUS;
      }
      if totalWeight == 0 {
        choice := SelectByRoundRobin();
        return;
      }
      var ticket := DrawTicket();
      var slot := ticket % totalWeight;
      var cumulative := 0;
      for k := 0 to |healthy|
        invariant cumulative == WeightBefore(healthy, k)
        invariant OwnerFrom(healthy, slot, 0) == OwnerFrom(healthy, slot, k)
      {
        cumulative := cumulative + healthy[k].weight;
        if slot < cumulative {
          return Some(healthy[k].addr);
        }
      }
      choice := None;
    }
  }
}
