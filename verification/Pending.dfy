/** The pending-request tracker: which origin each sequence number's responses go back to. */
module Pending {
  import opened Types

  datatype RequestInfo =
    RequestInfo(origin: SocketAddr, timestamp: nat, isBroadcast: bool, responses: nat, fromUpf: bool)

  type Requests = map<SeqNo, RequestInfo>

  /** Entries younger than `maxAge` at time `now` survive a cleanup. */
  function Unexpired(requests: Requests, now: nat, maxAge: nat): Requests {
    map q | q in requests && now - requests[q].timestamp < maxAge :: requests[q]
  }

  class PendingRequests {
    var requests: Requests

    constructor ()
      ensures requests == map[]
    {
      requests := map[];
    }

    method Insert(sequence: SeqNo, origin: SocketAddr, isBroadcast: bool, fromUpf: bool, now: nat)
      modifies this
      ensures requests == old(requests)[sequence := RequestInfo(origin, now, isBroadcast, 0, fromUpf)]
    {
      requests := requests[sequence := RequestInfo(origin, now, isBroadcast, 0, fromUpf)];
    }

    method LookupAndIncrement(sequence: SeqNo) returns (entry: Option<RequestInfo>)
      modifies this
      ensures sequence !in old(requests) ==> entry == None && requests == old(requests)
      ensures sequence in old(requests) ==>
                && var before := old(requests)[sequence];
                && entry == Some(before.(responses := before.responses + 1))
                && requests == old(requests)[sequence := entry.value]
    {
      if sequence in requests {
        var info := requests[sequence];
        info := info.(responses := info.responses + 1);
        requests := requests[sequence := info];
        entry := Some(info);
      } else {
        entry := None;
      }
    }

    method Remove(sequence: SeqNo)
      modifies this
      ensures requests == old(requests) - {sequence}
    {
      requests := requests - {sequence};
    }

    method CleanupStale(maxAge: nat, now: nat)
      modifies this
      ensures requests == Unexpired(old(requests), now, maxAge)
    {
      requests := map q | q in requests && now - requests[q].timestamp < maxAge :: requests[q];
    }

    method Count() returns (n: nat)
      ensures n == |requests|
    {
      n := |requests|;
    }
  }
}
