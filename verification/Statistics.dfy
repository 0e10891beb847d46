/** The bank of counters, and the snapshot taken of it together with the session table and the pool. */
module Statistics {
  import opened Types
  import opened Sessions
  import opened Pool

  datatype Counters = Counters(
    received: nat,
    sent: nat,
    forwarded: nat,
    perType: map<MsgType, nat>,
    perUpf: map<SocketAddr, nat>,
    established: nat,
    deleted: nat,
    bySeid: nat,
    byLoadBalance: nat,
    broadcasts: nat,
    dropped: nat)
  {
    function MessageReceived(t: MsgType): Counters {
      this.(received := received + 1, perType := Bump(perType, t))
    }

    function MessageSent(upf: SocketAddr): Counters {
      this.(sent := sent + 1, perUpf := Bump(perUpf, upf))
    }

    function RoutingDecided(viaSeid: bool, broadcast: bool): Counters {
      if broadcast then this.(broadcasts := broadcasts + 1)
      else if viaSeid then this.(bySeid := bySeid + 1)
      else this.(byLoadBalance := byLoadBalance + 1)
    }
  }

  const ZERO: Counters := Counters(0, 0, 0, map[], map[], 0, 0, 0, 0, 0, 0)

  function CountOf<K>(counts: map<K, nat>, k: K): nat {
    if k in counts then counts[k] else 0
  }

  function Bump<K>(counts: map<K, nat>, k: K): map<K, nat> {
    counts[k := CountOf(counts, k) + 1]
  }

  /** The sum of all counts in the map. */
  ghost function Total<K(!new)>(counts: map<K, nat>): nat {
    if counts == map[] then 0 else
    var k :| k in counts;
    counts[k] + Total(counts - {k})
  }

  lemma {:induction false} TotalSplitsAt<K(!new)>(counts: map<K, nat>, k: K)
    requires k in counts
    ensures Total(counts) == counts[k] + Total(counts - {k})
    decreases |counts|
  {
    var picked :| picked in counts && Total(counts) == counts[picked] + Total(counts - {picked});
    if picked != k {
      TotalSplitsAt(counts - {picked}, k);
      TotalSplitsAt(counts - {k}, picked);
      assert counts - {picked} - {k} == counts - {k} - {picked};
    }
  }

  lemma TotalAfterBump<K(!new)>(counts: map<K, nat>, k: K)
    ensures Total(Bump(counts, k)) == Total(counts) + 1
  {
    TotalSplitsAt(Bump(counts, k), k);
    assert Bump(counts, k) - {k} == counts - {k};
    if k in counts {
      TotalSplitsAt(counts, k);
    } else {
      assert counts - {k} == counts;
    }
  }

  datatype UpfStat = UpfStat(address: SocketAddr, messagesSent: nat, activeSessions: nat, health: HealthStatus)

  datatype Snapshot = Snapshot(counters: Counters, activeSessions: nat, upfStats: seq<UpfStat>)

  function StatOf(b: UpfBackend, perUpf: map<SocketAddr, nat>, table: Table): UpfStat {
    UpfStat(b.addr, CountOf(perUpf, b.addr), SessionsOn(table, b.addr), b.health)
  }

  function SnapshotOf(counters: Counters, table: Table, backends: seq<UpfBackend>): Snapshot {
    Snapshot(counters, |table|,
             seq(|backends|, i requires 0 <= i < |backends| => StatOf(backends[i], counters.perUpf, table)))
  }

  /** The active sessions a snapshot reports for its first `k` UPFs. */
  function ActiveTotal(stats: seq<UpfStat>, k: nat): nat
    requires k <= |stats|
  {
    if k == 0 then 0 else ActiveTotal(stats, k - 1) + stats[k - 1].activeSessions
  }

  /** The sessions whose UPF is among the first `k` pool members. */
  ghost function Covered(table: Table, backends: seq<UpfBackend>, k: nat): set<Seid>
    requires k <= |backends|
  {
    set s | s in table && table[s].upf in AddrsOf(backends)[..k]
  }

  lemma CoveredGrows(table: Table, backends: seq<UpfBackend>, k: nat)
    requires Distinct(AddrsOf(backends)) && 0 < k <= |backends|
    ensures |Covered(table, backends, k)| == |Covered(table, backends, k - 1)| + SessionsOn(table, backends[k - 1].addr)
  {
    var addrs := AddrsOf(backends);
    var before, last := addrs[..k - 1], addrs[k - 1];
    assert addrs[..k] == before + [last];
    assert last !in before;
    assert Covered(table, backends, k) == Covered(table, backends, k - 1) + BoundTo(table, last);
    assert Covered(table, backends, k - 1) !! BoundTo(table, last);
  }

  lemma {:induction false} ActiveTotalCountsCovered(snap: Snapshot, counters: Counters, table: Table,
                                                   backends: seq<UpfBackend>, k: nat)
    requires Distinct(AddrsOf(backends)) && k <= |backends|
    requires snap == SnapshotOf(counters, table, backends)
    ensures ActiveTotal(snap.upfStats, k) == |Covered(table, backends, k)|
  {
    if k == 0 {
      assert Covered(table, backends, 0) == {};
    } else {
      ActiveTotalCountsCovered(snap, counters, table, backends, k - 1);
      CoveredGrows(table, backends, k);
    }
  }

  /**
   * With distinct pool addresses the reported per-UPF sessions never exceed the table's count, and they add up
   * to it exactly when every bound UPF is still in the pool.
   */
  lemma SnapshotAgreesWithTable(counters: Counters, table: Table, backends: seq<UpfBackend>)
    requires Distinct(AddrsOf(backends))
    ensures var snap := SnapshotOf(counters, table, backends);
      && ActiveTotal(snap.upfStats, |snap.upfStats|) <= snap.activeSessions
      && (ActiveTotal(snap.upfStats, |snap.upfStats|) == snap.activeSessions
          <==> forall s :: s in table ==> table[s].upf in AddrsOf(backends))
  {
    var snap := SnapshotOf(counters, table, backends);
    var n := |backends|;
    ActiveTotalCountsCovered(snap, counters, table, backends, n);
    var covered := Covered(table, backends, n);
    assert AddrsOf(backends)[..n] == AddrsOf(backends);
    assert covered <= table.Keys;
    SubsetSize(covered, table.Keys);
    assert covered == table.Keys <==> forall s :: s in table ==> table[s].upf in AddrsOf(backends);
  }

  class Statistics {
    var totalMessagesReceived: nat
    var totalMessagesSent: nat
    var totalResponsesForwarded: nat
    var msgTypeCounts: map<MsgType, nat>
    var upfMessageCounts: map<SocketAddr, nat>
    var sessionsEstablished: nat
    var sessionsDeleted: nat
    var routedBySeid: nat
    var routedByLoadBalance: nat
    var broadcasts: nat
    var responsesDropped: nat

    ghost function State(): Counters
      reads this
    {
      Counters(totalMessagesReceived, totalMessagesSent, totalResponsesForwarded, msgTypeCounts, upfMessageCounts,
               sessionsEstablished, sessionsDeleted, routedBySeid, routedByLoadBalance, broadcasts, responsesDropped)
    }

    constructor ()
      ensures State() == ZERO
    {
      totalMessagesReceived, totalMessagesSent, totalResponsesForwarded := 0, 0, 0;
      msgTypeCounts, upfMessageCounts := map[], map[];
      sessionsEstablished, sessionsDeleted := 0, 0;
      routedBySeid, routedByLoadBalance, broadcasts, responsesDropped := 0, 0, 0, 0;
    }

    method RecordMessageReceived(t: MsgType)
      modifies this
      ensures State() == old(State()).MessageReceived(t)
    {
      totalMessagesReceived := totalMessagesReceived + 1;
      msgTypeCounts := msgTypeCounts[t := if t in msgTypeCounts then msgTypeCounts[t] + 1 else 1];
    }

    method RecordMessageSent(upf: SocketAddr)
      modifies this
      ensures State() == old(State()).MessageSent(upf)
    {
      totalMessagesSent := totalMessagesSent + 1;
      upfMessageCounts := upfMessageCounts[upf := if upf in upfMessageCounts then upfMessageCounts[upf] + 1 else 1];
    }

    method RecordSessionEstablished()
      modifies this
      ensures State() == old(State()).(established := old(sessionsEstablished) + 1)
    {
      sessionsEstablished := sessionsEstablished + 1;
    }

    method RecordSessionDeleted()
      modifies this
      ensures State() == old(State()).(deleted := old(sessionsDeleted) + 1)
    {
      sessionsDeleted := sessionsDeleted + 1;
    }

    method RecordRoutingDecision(viaSeid: bool, broadcast: bool)
      modifies this
      ensures State() == old(State()).RoutingDecided(viaSeid, broadcast)
    {
      if broadcast {
        broadcasts := broadcasts + 1;
      } else if viaSeid {
        routedBySeid := routedBySeid + 1;
      } else {
        routedByLoadBalance := routedByLoadBalance + 1;
      }
    }

    method RecordResponseForwarded()
      modifies this
      ensures State() == old(State()).(forwarded := old(totalResponsesForwarded) + 1)
    {
      totalResponsesForwarded := totalResponsesForwarded + 1;
    }

    method RecordResponseDropped()
      modifies this
      ensures State() == old(State()).(dropped := old(responsesDropped) + 1)
    {
      responsesDropped := responsesDropped + 1;
    }

    method CreateSnapshot(table: SessionTable, pool: UpfPool) returns (snap: Snapshot)
      ensures snap == SnapshotOf(State(), table.sessions, pool.backends)
    {
      var upfStats := [];
      var backends := pool.AllBackends();
      for i := 0 to |backends|
        invariant |upfStats| == i
        invariant forall j :: 0 <= j < i ==> upfStats[j] == StatOf(backends[j], upfMessageCounts, table.sessions)
      {
        var addr := backends[i].addr;
        var messagesSent := if addr in upfMessageCounts then upfMessageCounts[addr] else 0;
        var activeSessions := table.CountByUpf(addr);
        upfStats := upfStats + [UpfStat(addr, messagesSent, activeSessions, backends[i].health)];
      }
      var activeSessions := table.Count();
      snap := Snapshot(
        Counters(totalMessagesReceived, totalMessagesSent, totalResponsesForwarded, msgTypeCounts, upfMessageCounts,
                 sessionsEstablished, sessionsDeleted, routedBySeid, routedByLoadBalance, broadcasts, responsesDropped),
        activeSessions, upfStats);
    }
  }
}
