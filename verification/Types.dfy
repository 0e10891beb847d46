/** Addresses, messages and the small enumerations shared by every component of the proxy. */
module Types {

  datatype Option<+T> = None | Some(value: T)

  datatype SocketAddr = SocketAddr(ip: nat, port: nat)

  type Seid = nat

  type SeqNo = nat

  /** The PFCP message types the proxy names; `Other` stands for every type it does not name. */
  datatype MsgType =
    | HeartbeatRequest
    | HeartbeatResponse
    | PfdManagementRequest
    | PfdManagementResponse
    | AssociationSetupRequest
    | AssociationSetupResponse
    | AssociationUpdateRequest
    | AssociationUpdateResponse
    | AssociationReleaseRequest
    | AssociationReleaseResponse
    | VersionNotSupportedResponse
    | NodeReportRequest
    | NodeReportResponse
    | SessionSetDeletionRequest
    | SessionSetDeletionResponse
    | SessionSetModificationRequest
    | SessionSetModificationResponse
    | SessionEstablishmentRequest
    | SessionEstablishmentResponse
    | SessionModificationRequest
    | SessionModificationResponse
    | SessionDeletionRequest
    | SessionDeletionResponse
    | SessionReportRequest
    | SessionReportResponse
    | Other(code: nat)

  /** A received message after parsing: the header fields the proxy uses, and the sender. */
  datatype Message = Message(msgType: MsgType, seid: Option<Seid>, sequence: SeqNo, src: SocketAddr)

  datatype HealthStatus = Healthy | Degraded | Unhealthy | Unknown

  datatype Strategy = RoundRobin | LeastSessions | Weighted

  datatype RoutingDecision =
    | Single(upf: SocketAddr)
    | Broadcast(upfs: seq<SocketAddr>)
    | ResponseToClient
    | SessionNotFound
    | NoSeid
    | NoBackend

  /** One attempt to send a datagram, and whether the socket accepted it. */
  datatype Send = Send(to: SocketAddr, ok: bool)

  const USIZE_MODULUS: nat := 0x1_0000_0000_0000_0000

  const USIZE_MAX: nat := USIZE_MODULUS - 1

  const U32_MODULUS: nat := 0x1_0000_0000

  const MAX_BACKENDS: nat := 64

  /** No element occurs twice. */
  ghost predicate Distinct<T>(s: seq<T>) {
    forall i, j :: 0 <= i < j < |s| ==> s[i] != s[j]
  }

  lemma SubsetSize<T>(a: set<T>, b: set<T>)
    requires a <= b
    ensures |a| <= |b|
    ensures |a| == |b| <==> a == b
  {
    assert b == a + (b - a);
  }
}
