/** The local WireGuard device (internal/adapters/wgcontroller/local.go) and the three reconcilers
    that bring it in line with the database. One device; several interfaces do not interact. */
module Device {
  import opened Options
  import opened Cidrs
  import opened Domain

  /** What the program gets from its configuration, its text parsers and the resolver. */
  datatype Env = Env(
    force: bool,
    parse: CidrParser,
    isKey: string -> bool,
    parseKey: string -> Option<string>,
    resolve: string -> Option<string>,
    render: set<Cidr> -> string)

  /** The networks a row is to get on a device, told from the row alone: the extra networks always; the
      allowed-IPs text for a server, and for any other peer when it is set and not overridden; otherwise
      the single addresses of the peer. */
  predicate IsGranted(p: Peer, n: Cidr, env: Env) {
    var byText := p.config.kind == Server || (!env.force && p.allowedIPs.value != "");
    || n in env.parse(p.extraAllowedIPs)
    || (byText && n in env.parse(p.allowedIPs.value))
    || (!byText && exists a <- p.config.addresses ::
          a.Parses() && n == Cidr(a.v4, a.addr, if a.v4 then 32 else 128))
  }

  // ---------- the kernel ----------

  datatype Entry = Entry(allowed: set<Cidr>, presharedKey: string, endpoint: string, keepalive: int)

  const BLANK := Entry({}, "", "", 0)
  const ZERO_KEY: PeerId := "AAAAAAAAAAAAAAAAAAAAAAAAAAAAAAAAAAAAAAAAAAA="

  type Table = map<PeerId, Entry>

  /** One peer of a device configuration call. None leaves the setting as it is. */
  datatype PeerConfig = PeerConfig(
    publicKey: PeerId,
    remove: bool,
    updateOnly: bool,
    replaceAllowedIPs: bool,
    allowed: set<Cidr>,
    presharedKey: Option<string>,
    endpoint: Option<string>,
    keepalive: Option<int>)

  function OrElse<T>(o: Option<T>, d: T): T {
    if o.Some? then o.value else d
  }

  /** An allowed network belongs to one peer of a device: giving it to one takes it from the others. */
  function ConfigureDevice(t: Table, c: PeerConfig): Table {
    if c.remove then t - {c.publicKey}
    else if c.updateOnly && c.publicKey !in t then t
    else
      var before := if c.publicKey in t then t[c.publicKey] else BLANK;
      var allowed := if c.replaceAllowedIPs then c.allowed else before.allowed + c.allowed;
      (map id | id in t :: t[id].(allowed := t[id].allowed - c.allowed))
      [c.publicKey := Entry(allowed, OrElse(c.presharedKey, before.presharedKey),
                            OrElse(c.endpoint, before.endpoint), OrElse(c.keepalive, before.keepalive))]
  }

  /** The kernel keeps the masked networks. */
  function Masked(ips: seq<Cidr>): set<Cidr> {
    set c <- ips | c.Valid() :: c.NetworkAddr()
  }

  // ---------- what one save does ----------

  function GetPresharedKey(pp: PhysicalPeer, env: Env): Option<string> {
    if pp.presharedKey == "" then None else env.parseKey(pp.presharedKey)
  }

  function GetEndpointAddress(pp: PhysicalPeer, env: Env): Option<string> {
    if pp.endpoint == "" then None else env.resolve(pp.endpoint)
  }

  function GetPersistentKeepaliveTime(pp: PhysicalPeer): Option<int> {
    if pp.keepalive == 0 then None else Some(pp.keepalive)
  }

  /** Text that is no key reads as the key of zeros. */
  function KeyOf(publicKey: string, env: Env): PeerId {
    if env.isKey(publicKey) then publicKey else ZERO_KEY
  }

  function UpdateConfig(pp: PhysicalPeer, env: Env): PeerConfig {
    PeerConfig(KeyOf(pp.publicKey, env), false, true, true, Masked(pp.allowedIPs), GetPresharedKey(pp, env),
               GetEndpointAddress(pp, env), GetPersistentKeepaliveTime(pp))
  }

  /** The networks a peer's row projects to. */
  function Projection(p: Peer, env: Env): set<Cidr> {
    Masked(AllowedIPsOf(p, env.force, env.parse))
  }

  /** A row projects to the network addresses of what it is granted, and to nothing else. */
  lemma ProjectionIsGranted(p: Peer, env: Env, c: Cidr)
    ensures c in Projection(p, env) <==> exists n: Cidr :: n.Valid() && IsGranted(p, n, env) && c == n.NetworkAddr()
  {
    var hosts, addresses := HostAddrs(p.config.addresses), p.config.addresses;
    forall a | a in addresses && a.Parses() ensures Cidr(a.v4, a.addr, if a.v4 then 32 else 128) in hosts {
      var i :| 0 <= i < |addresses| && addresses[i] == a;
      assert hosts[i] == a.HostAddr();
    }
    forall n: Cidr | n.Valid() ensures IsGranted(p, n, env) <==> n in AllowedIPsOf(p, env.force, env.parse) {
      if n in hosts {
        var i :| 0 <= i < |hosts| && hosts[i] == n;
        assert addresses[i] in addresses && n == addresses[i].HostAddr();
      }
    }
  }

  /** The entry of a saved peer: its networks replace the old ones, unset settings stay. */
  function EntryAfter(before: Entry, p: Peer, env: Env): Entry {
    Entry(Projection(p, env),
          if p.presharedKey == "" then before.presharedKey
          else OrElse(env.parseKey(p.presharedKey), before.presharedKey),
          if p.endpoint.value == "" then before.endpoint else OrElse(env.resolve(p.endpoint.value), before.endpoint),
          if p.keepalive.value == 0 then before.keepalive else p.keepalive.value)
  }

  function Before(t: Table, id: PeerId): Entry {
    if id in t then t[id] else BLANK
  }

  /** A peer of the device configured with a row's networks, which the others lose, and settings. */
  function Configured(t: Table, key: PeerId, p: Peer, env: Env): Table {
    (map id | id in t :: t[id].(allowed := t[id].allowed - Projection(p, env)))
    [key := EntryAfter(Before(t, key), p, env)]
  }

  /** The device after a row was saved to it through MergeToPhysicalPeer: the peer is created under the
      identifier, the configuration goes to the public key, and is lost when the device has no such peer. */
  function Saved(t: Table, p: Peer, env: Env): Table {
    if !env.isKey(p.id) then t
    else if p.IsDisabled() then t - {p.id}
    else
      var created, key := t[p.id := Before(t, p.id)], KeyOf(p.config.publicKey, env);
      if key in created then Configured(created, key, p, env) else created
  }

  /** The public key of the row is its identifier. */
  predicate OwnKey(p: Peer, env: Env) {
    KeyOf(p.config.publicKey, env) == p.id
  }

  /** For a row with its own key the peer that is created is also the one configured. */
  lemma SavedUnderOwnKey(t: Table, p: Peer, env: Env)
    requires OwnKey(p, env) && env.isKey(p.id) && !p.IsDisabled()
    ensures Saved(t, p, env) == Configured(t, p.id, p, env)
  {
    hide Projection;
  }

  /** Whatever its key, saving a row adds or removes its own identifier and no other. */
  lemma SavedKeys(t: Table, p: Peer, env: Env, id: PeerId)
    ensures id in Saved(t, p, env) <==> if id == p.id && env.isKey(id) then !p.IsDisabled() else id in t
  {
    hide Projection, EntryAfter;
  }

  /** An enabled row new to the device gets its networks if and only if it has its own key or none. */
  lemma OwnKeyExact(t: Table, p: Peer, env: Env)
    requires env.isKey(p.id) && !p.IsDisabled() && p.id !in t
    ensures Saved(t, p, env)[p.id].allowed == Projection(p, env) <==> OwnKey(p, env) || Projection(p, env) == {}
    ensures !OwnKey(p, env) ==> Saved(t, p, env)[p.id] == BLANK
  {
    hide Projection;
    assert {} - Projection(p, env) == {};
  }

  /** A public key that is no key reads as the key of zeros: its peer, if there is one, is configured. */
  lemma KeylessRow(t: Table, p: Peer, env: Env)
    requires env.isKey(p.id) && !p.IsDisabled() && !env.isKey(p.config.publicKey)
    ensures var zero := "AAAAAAAAAAAAAAAAAAAAAAAAAAAAAAAAAAAAAAAAAAA=";
            if zero in t || zero == p.id
            then zero in Saved(t, p, env) && Saved(t, p, env)[zero].allowed == Projection(p, env)
            else Saved(t, p, env) == t[p.id := Before(t, p.id)]
  {
    hide Projection;
  }

  lemma SavedNone(t: Table, p: Peer, env: Env)
    ensures !env.isKey(p.id) ==> Saved(t, p, env) == t
    ensures env.isKey(p.id) && p.IsDisabled() ==> Saved(t, p, env) == t - {p.id}
  {
  }

  /** Configuring a peer that was just fetched or created gives the saved table. */
  lemma ConfiguredIsSaved(t: Table, pp: PhysicalPeer, p: Peer, env: Env)
    requires env.isKey(p.id) && !p.IsDisabled()
    ensures ConfigureDevice(t[p.id := Before(t, p.id)],
                            UpdateConfig(MergeToPhysicalPeer(pp, p, env.force, env.parse), env)) == Saved(t, p, env)
  {
    hide AllowedIPsOf, Masked;
  }

  /** The request that only makes a peer known to the device. */
  function BarePeer(id: PeerId): PeerConfig {
    PeerConfig(id, false, false, false, {}, None, None, None)
  }

  lemma Creation(t: Table, id: PeerId)
    requires id !in t
    ensures ConfigureDevice(t, BarePeer(id)) == t[id := BLANK]
  {
    var r := ConfigureDevice(t, BarePeer(id));
    assert forall x <- t :: t[x].allowed - {} == t[x].allowed && r[x] == t[x];
    assert BLANK.allowed + {} == {};
  }

  /** What ListPeers shows of a device peer, compared with a row as Peer.Equals does. */
  predicate ListedEquals(e: Entry, p: Peer, env: Env) {
    && env.render(e.allowed) == p.allowedIPs.value
    && e.endpoint == p.endpoint.value
    && "" == p.presharedKey
    && ConfigOption(0, false) == p.keepalive
  }

  predicate NeedsSave(existing: Table, p: Peer, env: Env) {
    !p.IsDisabled() && (p.id !in existing || !ListedEquals(existing[p.id], p, env))
  }

  class LocalController {
    var device: Table
    const env: Env

    constructor (env: Env)
      ensures device == map[] && this.env == env
    {
      this.env := env;
      device := map[];
    }

    /** The physical peer read back from the kernel; traffic counters are left at zero. */
    function ConvertWireGuardPeer(id: PeerId, e: Entry, allowedIPs: seq<Cidr>): PhysicalPeer {
      PhysicalPeer(id, e.endpoint, allowedIPs, id, e.presharedKey, e.keepalive, Local, LocalPeerExtras(false),
                   None, 0, 0)
    }

    method GetOrCreatePeer(id: PeerId) returns (pp: Option<PhysicalPeer>)
      modifies this
      ensures pp.Some? <==> env.isKey(id)
      ensures pp.None? ==> device == old(device)
      ensures pp.Some? ==> device == old(device)[id := Before(old(device), id)]
      ensures pp.Some? ==> pp.value.id == id == pp.value.publicKey && pp.value.source == Local
      ensures pp.Some? ==> pp.value.presharedKey == Before(old(device), id).presharedKey
      ensures pp.Some? ==> pp.value.endpoint == Before(old(device), id).endpoint
      ensures pp.Some? ==> pp.value.keepalive == Before(old(device), id).keepalive
      ensures pp.Some? ==> pp.value.extras == LocalPeerExtras(false)
      ensures pp.Some? ==> forall c :: c in pp.value.allowedIPs <==> c in Before(old(device), id).allowed
    {
      if !env.isKey(id) {
        return None;
      }
      if id !in device {
        Creation(device, id);
        device := ConfigureDevice(device, BarePeer(id));
      }
      var networks := Networks(device[id].allowed);
      pp := Some(ConvertWireGuardPeer(id, device[id], networks));
    }

    /** The networks of a device peer in the order the kernel lists them. */
    method Networks(allowed: set<Cidr>) returns (l: seq<Cidr>)
      ensures forall c :: c in l <==> c in allowed
    {
      l := [];
      var rest := allowed;
      while rest != {}
        invariant rest <= allowed && forall c :: c in l <==> c in allowed - rest
      {
        var c :| c in rest;
        l, rest := l + [c], rest - {c};
      }
    }

    /** Saves a row: the device peer is fetched or created, merged with the row and either reconfigured
        or, when the row is disabled, removed. */
    method SavePeer(p: Peer) returns (ok: bool)
      modifies this
      ensures ok == env.isKey(p.id)
      ensures !ok ==> device == old(device)
      ensures device == Saved(old(device), p, env)
      ensures ok ==> (p.id in device <==> !p.IsDisabled())
      ensures ok && !p.IsDisabled() && p.config.publicKey == p.id ==>
                forall c :: c in device[p.id].allowed <==>
                            exists n: Cidr :: n.Valid() && IsGranted(p, n, env) && c == n.NetworkAddr()
    {
      SavedKeys(device, p, env, p.id);
      if env.isKey(p.id) && !p.IsDisabled() && p.config.publicKey == p.id {
        SavedUnderOwnKey(device, p, env);
        assert Saved(device, p, env)[p.id].allowed == Projection(p, env);
        forall c
          ensures c in Projection(p, env) <==>
                  exists n: Cidr :: n.Valid() && IsGranted(p, n, env) && c == n.NetworkAddr()
        {
          ProjectionIsGranted(p, env, c);
        }
      }
      hide Projection, IsGranted;
      hide Saved, ConfigureDevice, UpdateConfig;
      var pp := GetOrCreatePeer(p.id);
      if pp.None? {
        assert device == Saved(old(device), p, env) by { SavedNone(device, p, env); }
        return false;
      }
      var merged := MergeToPhysicalPeer(pp.value, p, env.force, env.parse);
      if merged.extras == LocalPeerExtras(true) {
        SavedNone(old(device), p, env);
        ok := DeletePeer(p.id);
        return;
      }
      ConfiguredIsSaved(old(device), pp.value, p, env);
      device := ConfigureDevice(device, UpdateConfig(merged, env));
      return true;
    }

    method DeletePeer(id: PeerId) returns (ok: bool)
      modifies this
      ensures ok == env.isKey(id)
      ensures device == if ok then old(device) - {id} else old(device)
    {
      if !env.isKey(id) {
        return false;
      }
      device := ConfigureDevice(device, PeerConfig(id, true, false, false, {}, None, None, None));
      return true;
    }

    /** Removes a set of peers one by one, in any order. */
    method DeleteAll(ids: set<PeerId>)
      requires forall id <- ids :: env.isKey(id)
      modifies this
      ensures device == old(device) - ids
    {
      var todo := ids;
      while todo != {}
        invariant todo <= ids && device == old(device) - (ids - todo)
      {
        var id :| id in todo;
        var _ := DeletePeer(id);
        todo := todo - {id};
        assert old(device) - (ids - todo) == old(device) - (ids - (todo + {id})) - {id};
      }
    }

    /** The interface-updated event: remove what the database lacks, then save or remove each row.
        A row whose identifier is no key is logged and skipped. */
    method HandlePeerInterfaceUpdatedEvent(dbPeers: seq<Peer>)
      requires DbRows(dbPeers) && forall id <- device :: env.isKey(id)
      modifies this
      ensures device == SaveAll(Only(old(device), Ids(dbPeers)), dbPeers, env)
    {
      var wgPeers := device.Keys;
      DeleteAll(wgPeers - Ids(dbPeers));
      assert device == Only(old(device), Ids(dbPeers));
      assert dbPeers[..0] == [];
      for i := 0 to |dbPeers|
        invariant device == SaveAll(Only(old(device), Ids(dbPeers)), dbPeers[..i], env)
      {
        assert dbPeers[..i + 1] == dbPeers[..i] + [dbPeers[i]];
        var p := dbPeers[i];
        NotYetSaved(Only(old(device), Ids(dbPeers)), dbPeers[..i], p.id, env);
        if p.IsDisabled() {
          if p.id in wgPeers {
            var _ := DeletePeer(p.id);
          }
        } else {
          var _ := SavePeer(p);
        }
      }
      assert dbPeers[..|dbPeers|] == dbPeers;
    }

    /** The peer phase of RestoreInterfaceState for an enabled interface: save every row, giving up
        on the first failure, then remove what the database lacks. */
    method RestorePeers(dbPeers: seq<Peer>) returns (ok: bool)
      requires DbRows(dbPeers) && forall id <- device :: env.isKey(id)
      modifies this
      ensures ok <==> AllKeys(dbPeers, env)
      ensures ok ==> device == Only(SaveAll(old(device), dbPeers, env), Ids(dbPeers))
    {
      hide Saved;
      assert dbPeers[..0] == [];
      for i := 0 to |dbPeers|
        invariant device == SaveAll(old(device), dbPeers[..i], env)
        invariant forall j :: 0 <= j < i ==> env.isKey(dbPeers[j].id)
      {
        assert dbPeers[..i + 1] == dbPeers[..i] + [dbPeers[i]];
        var saved := SavePeer(dbPeers[i]);
        if !saved {
          return false;
        }
      }
      assert dbPeers[..|dbPeers|] == dbPeers;
      assert forall id <- device :: id in old(device) || id in Ids(dbPeers) by {
        SaveAllKeys(old(device), dbPeers, env);
      }
      var all := device;
      DeleteAll(device.Keys - Ids(dbPeers));
      assert device == Only(all, Ids(dbPeers));
      return true;
    }

    /** The full sync of one interface: remove what is not an enabled row, then save, in any order,
        the enabled rows that are missing or listed differently. */
    method SyncAllPeersFromDB(dbPeers: seq<Peer>) returns (loaded: nat, ok: bool, ghost order: seq<Peer>)
      requires DbRows(dbPeers) && forall id <- device :: env.isKey(id)
      modifies this
      ensures loaded == |EnabledIds(dbPeers)|
      ensures ok <==> forall p <- dbPeers :: NeedsSave(old(device), p, env) ==> env.isKey(p.id)
      ensures ok ==> ListsExactly(order, set p <- dbPeers | NeedsSave(old(device), p, env))
      ensures ok ==> forall p :: p in order <==>
                p in dbPeers && !p.IsDisabled() &&
                (p.id in old(device) && env.render(old(device)[p.id].allowed) == p.allowedIPs.value &&
                 old(device)[p.id].endpoint == p.endpoint.value ==>
                   p.presharedKey != "" || p.keepalive != ConfigOption(0, false))
      ensures device == SaveAll(Only(old(device), EnabledIds(dbPeers)), order, env)
    {
      hide SaveAll;
      var existing := device;
      var enabled := EnabledIds(dbPeers);
      DeleteAll(existing.Keys - enabled);
      assert device == Only(existing, enabled);
      ok, order := ApplyPeers(set p <- dbPeers | NeedsSave(existing, p, env));
      return |enabled|, ok, order;
    }

    /** Saves a set of rows in some order, giving up on the first failure. */
    method ApplyPeers(peers: set<Peer>) returns (ok: bool, ghost order: seq<Peer>)
      requires forall p, q :: p in peers && q in peers && p.id == q.id ==> p == q
      modifies this
      ensures ok <==> forall p <- peers :: env.isKey(p.id)
      ensures ok ==> ListsExactly(order, peers)
      ensures device == SaveAll(old(device), order, env)
    {
      hide Saved;
      var todo := peers;
      order := [];
      while todo != {}
        invariant todo <= peers && ListsExactly(order, peers - todo)
        invariant forall p <- peers - todo :: env.isKey(p.id)
        invariant device == SaveAll(old(device), order, env)
      {
        var p :| p in todo;
        ok := SavePeer(p);
        if !ok {
          return;
        }
        assert (order + [p])[..|order|] == order;
        assert peers - (todo - {p}) == peers - todo + {p};
        ListOneMore(order, peers - todo, p);
        todo, order := todo - {p}, order + [p];
      }
      ok := true;
    }
  }

  // ---------- lists of rows ----------

  /** Rows of the peer table: the identifier is the primary key. */
  predicate DbRows(ps: seq<Peer>) {
    forall i, j :: 0 <= i < j < |ps| ==> ps[i].id != ps[j].id
  }

  predicate OwnKeys(ps: seq<Peer>, env: Env) {
    forall p <- ps :: OwnKey(p, env)
  }

  /** The list holds exactly these rows, each once. */
  ghost predicate ListsExactly(ps: seq<Peer>, peers: set<Peer>) {
    DbRows(ps) && forall p :: p in ps <==> p in peers
  }

  lemma ListOneMore(ps: seq<Peer>, peers: set<Peer>, p: Peer)
    requires ListsExactly(ps, peers)
    requires forall q <- peers :: q.id != p.id
    ensures ListsExactly(ps + [p], peers + {p})
  {
  }

  predicate AllKeys(ps: seq<Peer>, env: Env) {
    forall p <- ps :: env.isKey(p.id)
  }

  function Ids(ps: seq<Peer>): set<PeerId> {
    set p <- ps :: p.id
  }

  function EnabledIds(ps: seq<Peer>): set<PeerId> {
    set p <- ps | !p.IsDisabled() :: p.id
  }

  function Only(t: Table, ids: set<PeerId>): Table {
    map id | id in t && id in ids :: t[id]
  }

  function SaveAll(t: Table, ps: seq<Peer>, env: Env): Table {
    if ps == [] then t else Saved(SaveAll(t, ps[..|ps| - 1], env), ps[|ps| - 1], env)
  }

  /** Every network some enabled row of the list projects to. */
  function Claims(ps: seq<Peer>, env: Env): set<Cidr> {
    if ps == [] then {}
    else Claims(ps[..|ps| - 1], env) + if ps[|ps| - 1].IsDisabled() then {} else Projection(ps[|ps| - 1], env)
  }

  lemma {:induction false} SaveAllKeys(t: Table, ps: seq<Peer>, env: Env)
    ensures SaveAll(t, ps, env).Keys <= t.Keys + Ids(ps)
  {
    if ps != [] {
      SaveAllKeys(t, ps[..|ps| - 1], env);
      forall id ensures id in SaveAll(t, ps, env) ==> id in t || id in Ids(ps) {
        SavedKeys(SaveAll(t, ps[..|ps| - 1], env), ps[|ps| - 1], env, id);
      }
    }
  }

  lemma {:induction false} NotYetSaved(t: Table, ps: seq<Peer>, id: PeerId, env: Env)
    requires id !in Ids(ps)
    ensures id in SaveAll(t, ps, env) <==> id in t
  {
    if ps != [] {
      NotYetSaved(t, ps[..|ps| - 1], id, env);
      SavedKeys(SaveAll(t, ps[..|ps| - 1], env), ps[|ps| - 1], env, id);
    }
  }
}
