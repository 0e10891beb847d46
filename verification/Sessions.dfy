/** The SEID affinity table: its mathematical contents, and the class the handlers share. */
module Sessions {
  import opened Types

  datatype SessionInfo = SessionInfo(upf: SocketAddr, smf: SocketAddr)

  type Table = map<Seid, SessionInfo>

  function Binding(table: Table, seid: Seid): Option<SessionInfo> {
    if seid in table then Some(table[seid]) else None
  }

  function BoundTo(table: Table, upf: SocketAddr): set<Seid> {
    set s | s in table && table[s].upf == upf
  }

  function SessionsOn(table: Table, upf: SocketAddr): nat {
    |BoundTo(table, upf)|
  }

  lemma CountAfterRemove(table: Table, seid: Seid, upf: SocketAddr)
    requires seid in table
    ensures SessionsOn(table - {seid}, upf) == SessionsOn(table, upf) - (if table[seid].upf == upf then 1 else 0)
  {
    if table[seid].upf == upf {
      assert BoundTo(table - {seid}, upf) == BoundTo(table, upf) - {seid};
    } else {
      assert BoundTo(table - {seid}, upf) == BoundTo(table, upf);
    }
  }

  lemma CountAfterFreshInsert(table: Table, seid: Seid, info: SessionInfo, upf: SocketAddr)
    requires seid !in table
    ensures SessionsOn(table[seid := info], upf) == SessionsOn(table, upf) + if info.upf == upf then 1 else 0
  {
    if info.upf == upf {
      assert BoundTo(table[seid := info], upf) == BoundTo(table, upf) + {seid};
    } else {
      assert BoundTo(table[seid := info], upf) == BoundTo(table, upf);
    }
  }

  /** Binding a SEID counts one for its new UPF and takes one from the UPF it was bound to before, if any. */
  lemma CountAfterInsert(table: Table, seid: Seid, info: SessionInfo, upf: SocketAddr)
    ensures SessionsOn(table[seid := info], upf)
         == SessionsOn(table, upf)
            + (if info.upf == upf then 1 else 0)
            - (if seid in table && table[seid].upf == upf then 1 else 0)
  {
    hide SessionsOn;
    var rest := table - {seid};
    CountAfterFreshInsert(rest, seid, info, upf);
    assert rest[seid := info] == table[seid := info];
    if seid in table {
      CountAfterRemove(table, seid, upf);
    } else {
      assert rest == table;
    }
  }

  class SessionTable {
    var sessions: Table

    constructor ()
      ensures sessions == map[]
    {
      sessions := map[];
    }

    method Insert(seid: Seid, upf: SocketAddr, smf: SocketAddr)
      modifies this
      ensures sessions == old(sessions)[seid := SessionInfo(upf, smf)]
    {
      sessions := sessions[seid := SessionInfo(upf, smf)];
    }

    method Lookup(seid: Seid) returns (upf: Option<SocketAddr>)
      ensures upf == match Binding(sessions, seid) case Some(info) => Some(info.upf) case None => None
    {
      upf := if seid in sessions then Some(sessions[seid].upf) else None;
    }

    method LookupFull(seid: Seid) returns (info: Option<SessionInfo>)
      ensures info == Binding(sessions, seid)
    {
      info := if seid in sessions then Some(sessions[seid]) else None;
    }

    method Remove(seid: Seid)
      modifies this
      ensures sessions == old(sessions) - {seid}
    {
      sessions := sessions - {seid};
    }

    method Count() returns (n: nat)
      ensures n == |sessions|
    {
      n := |sessions|;
    }

    method CountByUpf(upf: SocketAddr) returns (n: nat)
      ensures n == SessionsOn(sessions, upf)
    {
      var matching := set s | s in sessions && sessions[s].upf == upf;
      n := |matching|;
      assert matching == BoundTo(sessions, upf);
    }
  }
}
