/** The message handlers, over the shared tables, pool and counters. */
module Proxy {
  import opened Types
  import opened Sessions
  import opened Pending
  import opened Pool
  import opened Statistics
  import opened Routing

  /** The UDP socket: it records every attempt to send, with the outcome the network chose. */
  class Socket {
    var attempts: seq<Send>
    const failed: set<nat>

    constructor (failed: set<nat>)
      ensures attempts == [] && this.failed == failed
    {
      attempts := [];
      this.failed := failed;
    }

    method SendTo(to: SocketAddr) returns (ok: bool)
      modifies this
      ensures ok == (|old(attempts)| !in failed)
      ensures attempts == old(attempts) + [Send(to, ok)]
    {
      ok := |attempts| !in failed;
      attempts := attempts + [Send(to, ok)];
    }
  }

  class PfcpProxy {
    const sessionTable: SessionTable
    const upfPool: UpfPool
    const pendingRequests: PendingRequests
    const stats: Statistics
    var now: nat

    ghost predicate Valid()
      reads this, upfPool
    {
      upfPool.Valid()
    }

    ghost function State(): ProxyState
      reads this, sessionTable, upfPool, pendingRequests, stats
    {
      ProxyState(upfPool.State(), sessionTable.sessions, pendingRequests.requests, stats.State(), now)
    }

    constructor (backends: seq<SocketAddr>, strategy: Strategy)
      ensures Valid() && State() == Initial(backends, strategy)
      ensures fresh(sessionTable) && fresh(upfPool) && fresh(pendingRequests) && fresh(stats)
    {
      var table := new SessionTable();
      var pool := new UpfPool(backends, strategy);
      var requests := new PendingRequests();
      var counters := new Statistics();
      sessionTable, upfPool, pendingRequests, stats := table, pool, requests, counters;
      now := 0;
    }

    method RouteMessage(m: Message) returns (decision: RoutingDecision)
      requires Valid()
      modifies sessionTable, upfPool`nextIndex, stats
      ensures Valid()
      ensures Routed(State(), decision) == Routing.RouteMessage(old(State()), m)
    {
      hide Select, RouteOf;
      match RouteOf(m.msgType)
      case ToEveryUpf =>
        stats.RecordRoutingDecision(false, true);
        var all := upfPool.AllBackends();
        decision := Broadcast(seq(|all|, i requires 0 <= i < |all| => all[i].addr));
        assert decision.upfs == AddrsOf(upfPool.backends);

      case NewSession =>
        var choice := upfPool.SelectUpf(sessionTable);
        match choice {
          case None =>
            decision := NoBackend;
          case Some(upf) =>
            stats.RecordRoutingDecision(false, false);
            stats.RecordSessionEstablished();
            if m.seid.Some? {
              sessionTable.Insert(m.seid.value, upf, m.src);
            }
            decision := Single(upf);
        }

      case ByAffinity =>
        if m.seid == None {
          return NoSeid;
        }
        var bound := sessionTable.Lookup(m.seid.value);
        match bound {
          case None =>
            decision := SessionNotFound;
          case Some(upf) =>
            stats.RecordRoutingDecision(true, false);
            if m.msgType == SessionDeletionRequest {
              stats.RecordSessionDeleted();
              sessionTable.Remove(m.seid.value);
            }
            decision := Single(upf);
        }

      case IsResponse =>
        decision := ResponseToClient;

      case ByAffinityOrBalanced =>
        if m.seid.Some? {
          var bound := sessionTable.Lookup(m.seid.value);
          if bound.Some? {
            stats.RecordRoutingDecision(true, false);
            return Single(bound.value);
          }
        }
        var choice := upfPool.SelectUpf(sessionTable);
        match choice {
          case None =>
            decision := NoBackend;
          case Some(upf) =>
            stats.RecordRoutingDecision(false, false);
            if m.seid.Some? {
              sessionTable.Insert(m.seid.value, upf, m.src);
            }
            decision := Single(upf);
        }
    }

    method HandleMessage(m: Message, socket: Socket)
      requires Valid() && socket.attempts == []
      modifies sessionTable, upfPool`nextIndex, pendingRequests, stats, socket
      ensures Valid()
      ensures Outcome(State(), socket.attempts) == Routing.HandleMessage(old(State()), m, socket.failed)
    {
      hide Select, Routing.RouteMessage, Routing.HandleSmfRequest, Routing.HandleResponse, Routing.HandleUpfRequest;
      stats.RecordMessageReceived(m.msgType);
      if IsUpfRequest(m.msgType) {
        HandleUpfRequest(m, socket);
      } else if !IsSmfRequest(m.msgType) {
        HandleResponse(m, socket);
      } else {
        HandleSmfRequest(m, socket);
      }
    }

    method HandleUpfRequest(m: Message, socket: Socket)
      requires Valid() && socket.attempts == []
      modifies pendingRequests, socket
      ensures Valid()
      ensures Outcome(State(), socket.attempts) == Routing.HandleUpfRequest(old(State()), m, socket.failed)
    {
      hide Select, Routing.RouteMessage, Track, Delivered, CountSent;
      if m.seid == None {
        return;
      }
      var info := sessionTable.LookupFull(m.seid.value);
      if info.Some? && info.value.upf == m.src {
        pendingRequests.Insert(m.sequence, m.src, false, true, now);
        var ok := socket.SendTo(info.value.smf);
        if !ok {
          pendingRequests.Remove(m.sequence);
        }
        assert socket.attempts == [Send(info.value.smf, ok)] == Attempts([info.value.smf], socket.failed);
        OneAttempt(Send(info.value.smf, ok), stats.State());
        InsertedOrWithdrawn(old(pendingRequests.requests), m.sequence, RequestInfo(m.src, now, false, 0, true),
                            socket.attempts);
      }
    }

    method HandleResponse(m: Message, socket: Socket)
      requires Valid() && socket.attempts == []
      modifies pendingRequests, stats, socket
      ensures Valid()
      ensures Outcome(State(), socket.attempts) == Routing.HandleResponse(old(State()), m, socket.failed)
    {
      hide Select, Routing.RouteMessage;
      var entry := pendingRequests.LookupAndIncrement(m.sequence);
      match entry
      case None =>
        stats.RecordResponseDropped();
      case Some(info) =>
        var ok := socket.SendTo(info.origin);
        assert socket.attempts == Attempts([info.origin], socket.failed);
        if ok {
          var backendCount := 1;
          if info.isBroadcast {
            backendCount := upfPool.BackendCount();
          }
          stats.RecordResponseForwarded();
          if !info.isBroadcast || info.responses >= backendCount {
            pendingRequests.Remove(m.sequence);
          }
        }
    }

    method HandleSmfRequest(m: Message, socket: Socket)
      requires Valid() && socket.attempts == []
      modifies sessionTable, upfPool`nextIndex, pendingRequests, stats, socket
      ensures Valid()
      ensures Outcome(State(), socket.attempts) == Routing.HandleSmfRequest(old(State()), m, socket.failed)
    {
      hide Select, Routing.RouteMessage, Track, Delivered, CountSent;
      var decision := RouteMessage(m);
      ghost var routed := State();
      match decision
      case Single(upf) =>
        pendingRequests.Insert(m.sequence, m.src, false, false, now);
        var ok := socket.SendTo(upf);
        if ok {
          stats.RecordMessageSent(upf);
        } else {
          pendingRequests.Remove(m.sequence);
        }
        assert socket.attempts == [Send(upf, ok)] == Attempts([upf], socket.failed);
        OneAttempt(Send(upf, ok), routed.stats);
        InsertedOrWithdrawn(old(pendingRequests.requests), m.sequence, RequestInfo(m.src, now, false, 0, false),
                            socket.attempts);

      case Broadcast(upfs) =>
        pendingRequests.Insert(m.sequence, m.src, true, false, now);
        var sentCount := SendToAll(upfs, socket);
        if sentCount == 0 {
          pendingRequests.Remove(m.sequence);
        }
        InsertedOrWithdrawn(old(pendingRequests.requests), m.sequence, RequestInfo(m.src, now, true, 0, false),
                            socket.attempts);

      case _ =>
    }

    /** The broadcast loop: one attempt per backend, counting the ones that succeed. */
    method SendToAll(upfs: seq<SocketAddr>, socket: Socket) returns (sentCount: nat)
      requires socket.attempts == []
      modifies stats, socket
      ensures socket.attempts == Attempts(upfs, socket.failed)
      ensures sentCount == Delivered(socket.attempts)
      ensures stats.State() == CountSent(old(stats.State()), socket.attempts)
    {
      sentCount := 0;
      for i := 0 to |upfs|
        invariant socket.attempts == Attempts(upfs[..i], socket.failed)
        invariant sentCount == Delivered(socket.attempts)
        invariant stats.State() == CountSent(old(stats.State()), socket.attempts)
      {
        hide Delivered, CountSent;
        ghost var before := socket.attempts;
        var ok := socket.SendTo(upfs[i]);
        OneMoreSend(before, Send(upfs[i], ok), old(stats.State()));
        if ok {
          stats.RecordMessageSent(upfs[i]);
          sentCount := sentCount + 1;
        }
      }
      assert upfs[..|upfs|] == upfs;
    }

    /** One pass of the background task that runs every 30 seconds. */
    method CleanUp()
      requires Valid()
      modifies pendingRequests
      ensures Valid()
      ensures State() == Step(old(State()), CleanupTick).state
    {
      pendingRequests.CleanupStale(60, now);
    }
  }
}
