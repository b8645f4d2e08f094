/** The runtime schema: type and endpoint tables, their v4 wire identifiers, and the
    link-local predicates derived from them. */
module Schema {
  import opened Bytes

  const EP_TIME_SYNC: nat := 200
  const EP_DISCOVERY: nat := 201
  const EP_TELEMETRY_ERROR: nat := 202
  const DT_RELIABLE_ACK: nat := 1
  const DT_RELIABLE_PACKET_REQUEST: nat := 2
  const DT_RELIABLE_PARTIAL_ACK: nat := 3

  datatype ReliableMode = Unreliable | Ordered | Unordered

  /** Type names; the built-in ones are the names the code compares against. */
  datatype TypeName =
    | Unused   // an empty slot
    | TelemetryError | ReliableAck | ReliablePacketRequest | ReliablePartialAck
    | TimeSyncAnnounce | TimeSyncRequest | TimeSyncResponse
    | DiscoveryAnnounce | DiscoveryTimesyncSources | DiscoveryTopology
    | DiscoverySchema | DiscoveryTopologyRequest | DiscoverySchemaRequest
    | ManagedVariableRequest | ManagedVariableValue | DiscoveryLeave
    | DiscoveryLinkCapabilities | DiscoveryAddress | P2pMessage
    | UserType(name: string)

  datatype EndpointName = TimeSync | Discovery | TelemetryErrors | UserEndpoint(name: string)

  datatype TypeInfo = TypeInfo(name: TypeName, mode: ReliableMode, linkLocalOnly: bool, endpoints: seq<nat>)

  datatype Schema = Schema(types: seq<TypeInfo>, endpoints: seq<Option<EndpointName>>)

  predicate ValidType(sc: Schema, ty: int) { 0 <= ty < |sc.types| && sc.types[ty].name != Unused }

  predicate ValidEndpoint(sc: Schema, ep: int) { 0 <= ep < |sc.endpoints| && sc.endpoints[ep].Some? }

  /** Reliable types other than the link-control ones carry a reliable header. */
  predicate HasReliableHeader(sc: Schema, ty: int) {
    ValidType(sc, ty) && sc.types[ty].mode != Unreliable && !IsControlName(sc.types[ty].name)
  }

  predicate IsControlName(name: TypeName) {
    name == ReliableAck || name == ReliablePacketRequest || name == ReliablePartialAck
  }

  // ---------------------------------------------------------------- type identifiers

  /** The fixed identifier of a built-in name, as the writer's chain of comparisons assigns it. */
  function BuiltinId(name: TypeName): Option<nat> {
    match name
    case TelemetryError => Some(0)
    case ReliableAck => Some(1)
    case ReliablePacketRequest => Some(2)
    case ReliablePartialAck => Some(3)
    case TimeSyncAnnounce => Some(4)
    case TimeSyncRequest => Some(5)
    case TimeSyncResponse => Some(6)
    case DiscoveryAnnounce => Some(7)
    case DiscoveryTimesyncSources => Some(8)
    case DiscoveryTopology => Some(9)
    case DiscoverySchema => Some(10)
    case DiscoveryTopologyRequest => Some(11)
    case DiscoverySchemaRequest => Some(12)
    case ManagedVariableRequest => Some(13)
    case ManagedVariableValue => Some(14)
    case DiscoveryLeave => Some(15)
    case DiscoveryLinkCapabilities => Some(16)
    case DiscoveryAddress => Some(17)
    case P2pMessage => Some(18)
    case _ => None
  }

  /** The name behind a fixed identifier, as the reader's switch resolves it. */
  function BuiltinName(wire: nat): TypeName {
    match wire
    case 0 => TelemetryError
    case 1 => ReliableAck
    case 2 => ReliablePacketRequest
    case 3 => ReliablePartialAck
    case 4 => TimeSyncAnnounce
    case 5 => TimeSyncRequest
    case 6 => TimeSyncResponse
    case 7 => DiscoveryAnnounce
    case 8 => DiscoveryTimesyncSources
    case 9 => DiscoveryTopology
    case 10 => DiscoverySchema
    case 11 => DiscoveryTopologyRequest
    case 12 => DiscoverySchemaRequest
    case 13 => ManagedVariableRequest
    case 14 => ManagedVariableValue
    case 15 => DiscoveryLeave
    case 16 => DiscoveryLinkCapabilities
    case 17 => DiscoveryAddress
    case 18 => P2pMessage
    case _ => Unused
  }

  lemma BuiltinTablesAgree(name: TypeName)
    ensures BuiltinId(name).Some? ==> BuiltinId(name).value <= 18 && BuiltinName(BuiltinId(name).value) == name
  {}

  /** The first slot holding the name. */
  function FindType(types: seq<TypeInfo>, name: TypeName, i: nat): (r: Option<nat>)
    requires i <= |types|
    ensures r.Some? ==> i <= r.value < |types| && types[r.value].name == name
    ensures forall j :: i <= j < |types| && (r.None? || j < r.value) ==> types[j].name != name
    decreases |types| - i
  {
    if i == |types| then None else if types[i].name == name then Some(i) else FindType(types, name, i + 1)
  }

  function WireTypeId(sc: Schema, ty: nat): (w: nat)
    ensures w <= 199 || w == ty
  {
    if !ValidType(sc, ty) then ty
    else match BuiltinId(sc.types[ty].name)
      case Some(w) => w
      case None => if ty >= 100 then ty else 100 + ty
  }

  function LocalTypeId(sc: Schema, wire: nat): Option<nat> {
    if wire <= 18 then FindType(sc.types, BuiltinName(wire), 0)
    else if wire < 100 then None
    else if ValidType(sc, wire) then Some(wire)
    else if ValidType(sc, wire - 100) then Some(wire - 100)
    else None
  }

  /** The types whose identifier survives the wire: a built-in must be the first of its name; any
      other must live at 100 or above, or have nothing valid where its shifted identifier points. */
  predicate RuntimeType(sc: Schema, ty: nat) {
    ValidType(sc, ty) &&
    if BuiltinId(sc.types[ty].name).Some? then FindType(sc.types, sc.types[ty].name, 0) == Some(ty)
    else ty >= 100 || !ValidType(sc, 100 + ty)
  }

  /** Exactly the runtime types keep their identifier across the wire. */
  lemma TypeIdRoundTrip(sc: Schema, ty: nat)
    requires ValidType(sc, ty)
    ensures LocalTypeId(sc, WireTypeId(sc, ty)) == Some(ty) <==> RuntimeType(sc, ty)
  {}

  /** Two runtime types never share a number. */
  lemma NumbersApart(sc: Schema, a: nat, b: nat)
    requires RuntimeType(sc, a) && RuntimeType(sc, b) && a != b
    ensures WireTypeId(sc, a) != WireTypeId(sc, b)
  {
    TypeIdRoundTrip(sc, a);
    TypeIdRoundTrip(sc, b);
  }

  /** User types share one exactly when they sit 100 apart across the border at 100; the lower one is
      then no runtime type. */
  lemma NumbersShared(sc: Schema, a: nat, b: nat)
    requires ValidType(sc, a) && ValidType(sc, b) && a < b
    requires BuiltinId(sc.types[a].name).None? && BuiltinId(sc.types[b].name).None?
    ensures WireTypeId(sc, a) == WireTypeId(sc, b) <==> a < 100 && b == 100 + a
    ensures WireTypeId(sc, a) == WireTypeId(sc, b) ==> !RuntimeType(sc, a)
  {}

  // ---------------------------------------------------------------- endpoint identifiers

  function FindEndpoint(endpoints: seq<Option<EndpointName>>, name: EndpointName, i: nat): (r: Option<nat>)
    requires i <= |endpoints|
    ensures r.Some? ==> i <= r.value < |endpoints| && endpoints[r.value] == Some(name)
    decreases |endpoints| - i
  {
    if i == |endpoints| then None
    else if endpoints[i] == Some(name) then Some(i) else FindEndpoint(endpoints, name, i + 1)
  }

  function WireEndpointId(sc: Schema, ep: nat): nat {
    if !ValidEndpoint(sc, ep) || ep >= 100 then ep
    else match sc.endpoints[ep].value
      case TimeSync => 200
      case Discovery => 201
      case TelemetryErrors => 202
      case UserEndpoint(_) => 100 + ep
  }

  function LocalEndpointId(sc: Schema, wire: nat): Option<nat> {
    if wire < 100 then None
    else if ValidEndpoint(sc, wire) then Some(wire)
    else if wire == 200 then FindEndpoint(sc.endpoints, TimeSync, 0)
    else if wire == 201 then FindEndpoint(sc.endpoints, Discovery, 0)
    else if wire == 202 then FindEndpoint(sc.endpoints, TelemetryErrors, 0)
    else if ValidEndpoint(sc, wire - 100) then Some(wire - 100)
    else None
  }

  // ---------------------------------------------------------------- link-local endpoints

  /** endpoint_link_local_only: some type uses the endpoint and every such type is link-local. */
  predicate LinkLocalOnly(sc: Schema, ep: nat) {
    && ValidEndpoint(sc, ep)
    && (exists i :: 0 <= i < |sc.types| && ep in sc.types[i].endpoints)
    && (forall i :: 0 <= i < |sc.types| && ep in sc.types[i].endpoints ==> sc.types[i].linkLocalOnly)
  }

  /** The scan behind it. */
  method ScanLinkLocalOnly(sc: Schema, ep: nat) returns (r: bool)
    ensures r == LinkLocalOnly(sc, ep)
  {
    if !ValidEndpoint(sc, ep) { return false; }
    var saw := false;
    for i := 0 to |sc.types|
      invariant saw <==> exists j :: 0 <= j < i && ep in sc.types[j].endpoints
      invariant forall j :: 0 <= j < i && ep in sc.types[j].endpoints ==> sc.types[j].linkLocalOnly
    {
      if ep in sc.types[i].endpoints {
        saw := true;
        if !sc.types[i].linkLocalOnly { return false; }
      }
    }
    return saw;
  }

  /** packet_requires_link_local */
  predicate RequiresLinkLocal(sc: Schema, endpoints: seq<nat>) {
    endpoints != [] && forall i :: 0 <= i < |endpoints| ==> LinkLocalOnly(sc, endpoints[i])
  }
}
