/** internal/domain: peers, their status and their projection onto a physical WireGuard peer. */
module Domain {
  import opened Options
  import opened Cidrs

  type PeerId = string
  type NodeId = string
  type IfaceId = string

  /** A point in time or a duration, in nanoseconds. */
  type Time = int
  const SECOND: Time := 1_000_000_000
  const MINUTE: Time := 60 * SECOND
  const HOUR: Time := 60 * MINUTE

  // ---------- status ----------

  datatype PeerStatus = PeerStatus(
    updatedAt: Time,
    connected: bool,
    pingable: bool,
    lastPing: Option<Time>,
    received: nat,
    transmitted: nat,
    lastHandshake: Option<Time>,
    endpoint: string,
    sessionStart: Option<Time>,
    owner: NodeId) {

    /** Connected when pingable or when the last handshake is at most two minutes before. */
    function CalcConnected(now: Time): PeerStatus {
      var handshakeValid := lastHandshake.Some? && !(lastHandshake.value < now - 2 * MINUTE);
      this.(connected := pingable || handshakeValid)
    }
  }

  /** Connected is pingable, or a handshake within the last 120 seconds; nothing else changes. */
  lemma ConnectedExactly(s: PeerStatus, now: Time)
    ensures s.CalcConnected(now) == s.(connected := s.CalcConnected(now).connected)
    ensures s.CalcConnected(now).connected <==>
            s.pingable || (s.lastHandshake.Some? && s.lastHandshake.value >= now - 120_000_000_000)
  {
  }

  function FreshStatus(now: Time): PeerStatus {
    PeerStatus(now, false, false, None, 0, 0, None, "", None, "")
  }

  // ---------- peers ----------

  datatype ConfigOption<T> = ConfigOption(value: T, overridable: bool)

  datatype InterfaceType = Server | Client | Any

  datatype PeerInterfaceConfig = PeerInterfaceConfig(
    publicKey: string,
    privateKey: string,
    kind: InterfaceType,
    addresses: seq<Cidr>,
    checkAliveAddress: string,
    dns: ConfigOption<string>,
    dnsSearch: ConfigOption<string>,
    mtu: ConfigOption<int>,
    firewallMark: ConfigOption<nat>,
    routingTable: ConfigOption<string>,
    preUp: ConfigOption<string>,
    postUp: ConfigOption<string>,
    preDown: ConfigOption<string>,
    postDown: ConfigOption<string>)

  /** Who created and last saved a row, and when. */
  datatype BaseModel = BaseModel(createdBy: string, updatedBy: string, createdAt: Time, updatedAt: Time)

  datatype Peer = Peer(
    id: PeerId,
    iface: IfaceId,
    user: string,
    displayName: string,
    notes: string,
    endpoint: ConfigOption<string>,
    endpointPublicKey: ConfigOption<string>,
    allowedIPs: ConfigOption<string>,
    extraAllowedIPs: string,
    presharedKey: string,
    keepalive: ConfigOption<int>,
    disabled: Option<Time>,
    disabledReason: string,
    expiresAt: Option<Time>,
    ttlLocked: bool,
    automaticallyCreated: bool,
    base: BaseModel,
    config: PeerInterfaceConfig) {

    predicate IsDisabled() {
      disabled.Some?
    }
  }

  // ---------- projection onto the device ----------

  datatype ControllerType = Mikrotik | Local | OtherController

  datatype Extras =
    | NoExtras
    | LocalPeerExtras(disabled: bool)
    | MikrotikPeerExtras(name: string, comment: string, mikrotikDisabled: bool, clientEndpoint: string,
                         clientAddress: seq<Cidr>, clientDns: string, clientKeepalive: int)

  datatype PhysicalPeer = PhysicalPeer(
    id: PeerId,
    endpoint: string,
    allowedIPs: seq<Cidr>,
    publicKey: string,
    presharedKey: string,
    keepalive: int,
    source: ControllerType,
    extras: Extras,
    lastHandshake: Option<Time>,
    bytesUpload: nat,
    bytesDownload: nat)

  /** Reads a comma separated list of networks; a list that does not parse reads as empty. */
  type CidrParser = string -> seq<Cidr>

  function HostAddrs(addresses: seq<Cidr>): (r: seq<Cidr>)
    ensures |r| == |addresses|
  {
    seq(|addresses|, i requires 0 <= i < |addresses| =>
      if addresses[i].Parses() then addresses[i].HostAddr() else NoCidr)
  }

  function AllowedIPsOf(p: Peer, force: bool, parse: CidrParser): seq<Cidr> {
    (if p.config.kind == Server then parse(p.allowedIPs.value)
     else if force then HostAddrs(p.config.addresses)
     else if p.allowedIPs.value != "" then parse(p.allowedIPs.value)
     else HostAddrs(p.config.addresses)) + parse(p.extraAllowedIPs)
  }

  function MergeToPhysicalPeer(pp: PhysicalPeer, p: Peer, force: bool, parse: CidrParser): PhysicalPeer {
    pp.(id := p.id,
        endpoint := p.endpoint.value,
        allowedIPs := AllowedIPsOf(p, force, parse),
        presharedKey := p.presharedKey,
        publicKey := p.config.publicKey,
        keepalive := p.keepalive.value,
        extras := match pp.source
                  case Mikrotik => MikrotikPeerExtras(p.displayName, p.notes, p.IsDisabled(), p.endpoint.value,
                                                      p.config.addresses, p.config.dns.value, p.keepalive.value)
                  case Local => LocalPeerExtras(p.IsDisabled())
                  case OtherController => pp.extras)
  }

  /** A device peer read back as a row, the extras of its controller included. */
  function ConvertPhysicalPeer(pp: PhysicalPeer, now: Time): Peer {
    var none, noNumber, noMark := ConfigOption("", false), ConfigOption(0, false), ConfigOption(0 as nat, false);
    var config := PeerInterfaceConfig(pp.publicKey, "", Any, [], "", none, none, noNumber, noMark, none,
                                      none, none, none, none);
    var peer := Peer(pp.id, "", "", pp.id, "", ConfigOption(pp.endpoint, true), ConfigOption("", true),
                     ConfigOption("", true), "", pp.presharedKey, ConfigOption(pp.keepalive, true), None, "", None,
                     false, false, BaseModel("", "", 0, 0), config);
    match pp.extras
    case NoExtras => peer
    case LocalPeerExtras(disabled) =>
      if disabled then peer.(disabled := Some(now), disabledReason := "Disabled by Local controller") else peer
    case MikrotikPeerExtras(name, comment, disabled, endpoint, address, dns, keepalive) =>
      var named := peer.(notes := comment, displayName := name);
      var typed := if endpoint == "" then named.(config := config.(kind := Server))
                   else named.(endpoint := ConfigOption(endpoint, true), keepalive := ConfigOption(keepalive, true),
                               config := config.(kind := Client, addresses := address, dns := ConfigOption(dns, true)));
      if disabled then typed.(disabled := Some(now), disabledReason := "Disabled by Mikrotik controller") else typed
  }

  /** Reading back what a row was projected to gives the row's values again: for every controller its keys
      and settings, for a local one whether it is disabled, for a Mikrotik one also its name, its notes
      and, when it has an endpoint, its addresses and name servers. */
  lemma ProjectionReadsBack(pp: PhysicalPeer, p: Peer, force: bool, parse: CidrParser, now: Time)
    requires pp.source == OtherController ==> pp.extras == NoExtras
    ensures var q := ConvertPhysicalPeer(MergeToPhysicalPeer(pp, p, force, parse), now);
            && q.id == p.id && q.config.publicKey == p.config.publicKey && q.presharedKey == p.presharedKey
            && q.endpoint.value == p.endpoint.value && q.keepalive.value == p.keepalive.value
            && (pp.source != OtherController ==> q.IsDisabled() == p.IsDisabled())
            && (pp.source == Mikrotik ==> q.displayName == p.displayName && q.notes == p.notes)
            && (pp.source == Mikrotik && p.endpoint.value != "" ==>
                  q.config.kind == Client && q.config.addresses == p.config.addresses &&
                  q.config.dns.value == p.config.dns.value)
            && (pp.source == Mikrotik && p.endpoint.value == "" ==> q.config.kind == Server)
  {
  }

  // ---------- which updates are announced to the other nodes ----------

  /** The index loop over both address lists, from index i on. */
  predicate AddressesDiffer(a: seq<Cidr>, b: seq<Cidr>, i: nat)
    requires i <= |a|
    decreases |a| - i
  {
    i < |a| && (i >= |b| || a[i] != b[i] || AddressesDiffer(a, b, i + 1))
  }

  /** The comparison that decides whether an update is published for the other nodes. */
  predicate HasMeaningfulChanges(before: Peer, after: Peer) {
    || before.allowedIPs != after.allowedIPs
    || before.extraAllowedIPs != after.extraAllowedIPs
    || before.endpoint != after.endpoint
    || before.endpointPublicKey != after.endpointPublicKey
    || before.presharedKey != after.presharedKey
    || before.keepalive != after.keepalive
    || before.disabled.None? != after.disabled.None?
    || (before.disabled.Some? && after.disabled.Some? && before.disabled.value != after.disabled.value)
    || before.disabledReason != after.disabledReason
    || before.displayName != after.displayName
    || before.notes != after.notes
    || before.config.checkAliveAddress != after.config.checkAliveAddress
    || before.config.dns != after.config.dns
    || before.config.dnsSearch != after.config.dnsSearch
    || before.config.mtu != after.config.mtu
    || before.config.firewallMark != after.config.firewallMark
    || before.config.routingTable != after.config.routingTable
    || before.config.preUp != after.config.preUp
    || before.config.postUp != after.config.postUp
    || before.config.preDown != after.config.preDown
    || before.config.postDown != after.config.postDown
    || before.config.publicKey != after.config.publicKey
    || before.config.kind != after.config.kind
    || |before.config.addresses| != |after.config.addresses|
    || AddressesDiffer(before.config.addresses, after.config.addresses, 0)
  }

  lemma {:induction false} AddressLoop(a: seq<Cidr>, b: seq<Cidr>, i: nat)
    requires i <= |a| == |b|
    ensures !AddressesDiffer(a, b, i) <==> a[i..] == b[i..]
    decreases |a| - i
  {
    if i < |a| {
      AddressLoop(a, b, i + 1);
      assert a[i..] == [a[i]] + a[i + 1..] && b[i..] == [b[i]] + b[i + 1..];
    }
  }

  /** An update is silent exactly when it touches nothing but the owner, the interface, the private
      key, the expiry, its lock, the mark of automatic creation and who saved the row when. */
  lemma SilentUpdates(before: Peer, after: Peer)
    ensures !HasMeaningfulChanges(before, after) <==>
            after == before.(id := after.id, user := after.user, iface := after.iface, expiresAt := after.expiresAt,
                             ttlLocked := after.ttlLocked, automaticallyCreated := after.automaticallyCreated,
                             base := after.base, config := before.config.(privateKey := after.config.privateKey))
  {
    if |before.config.addresses| == |after.config.addresses| {
      AddressLoop(before.config.addresses, after.config.addresses, 0);
    }
  }

  /** A silent update projects to the same physical peer, extras included, in both force modes and
      for every controller, whatever physical peer it is merged into. */
  lemma SuppressedEventsAreHarmless(before: Peer, after: Peer, pp: PhysicalPeer, force: bool, parse: CidrParser)
    requires before.id == after.id && !HasMeaningfulChanges(before, after)
    ensures MergeToPhysicalPeer(pp, before, force, parse) == MergeToPhysicalPeer(pp, after, force, parse)
    ensures before.IsDisabled() == after.IsDisabled()
  {
    SilentUpdates(before, after);
  }
}
