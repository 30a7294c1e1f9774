/** The peer, address and status tables of internal/adapters/database.go. Every function here is the
    effect of one committed transaction; class SqlRepo of module SqlRepository carries them out
    statement by statement. */
module PeerStore {
  import opened Options
  import opened Cidrs
  import opened Domain

  datatype Db = Db(peers: map<PeerId, Peer>, addresses: set<(PeerId, Cidr)>, statuses: map<PeerId, PeerStatus>)

  /** An update callback; None is an error, which rolls the transaction back. */
  type StatusUpdate = PeerStatus -> Option<PeerStatus>
  type PeerUpdate = Peer -> Option<Peer>

  /** The user of a save and its time. */
  datatype Stamp = Stamp(user: string, at: Time)

  function StatusOrFresh(db: Db, id: PeerId, now: Time): PeerStatus {
    if id in db.statuses then db.statuses[id] else FreshStatus(now)
  }

  predicate OwnedByOther(s: PeerStatus, node: NodeId) {
    s.connected && s.owner != "" && s.owner != node
  }

  // ---------- UpdatePeerStatus ----------

  /** What is saved when a node's callback turned row s into u. */
  function Settle(node: NodeId, s: PeerStatus, u: PeerStatus): (r: PeerStatus)
    ensures OwnedByOther(s, node) ==> r.connected && r.pingable == s.pingable && r.owner == s.owner
    ensures !OwnedByOther(s, node) ==> r.connected == u.connected && r.pingable == u.pingable
    ensures !r.connected ==> r.owner == ""
    ensures r.connected && !OwnedByOther(s, node) ==> r.owner == u.owner
    ensures r == u.(connected := r.connected, pingable := r.pingable, owner := r.owner)
  {
    var kept := if OwnedByOther(s, node) then u.(connected := s.connected, pingable := s.pingable, owner := s.owner)
                else u;
    if !kept.connected && kept.owner != "" then kept.(owner := "") else kept
  }

  function UpdateStatus(db: Db, node: NodeId, id: PeerId, update: StatusUpdate, now: Time): Option<Db> {
    if id !in db.peers then Some(db)
    else
      var s := StatusOrFresh(db, id, now);
      match update(s)
      case None => None
      case Some(u) => Some(db.(statuses := db.statuses[id := Settle(node, s, u)]))
  }

  // ---------- ClaimPeerStatus ----------

  function ClaimStatus(db: Db, id: PeerId, owner: NodeId, update: StatusUpdate, now: Time): Option<Db> {
    if owner == "" || (id !in db.statuses && id !in db.peers) then None
    else
      match update(StatusOrFresh(db, id, now).(owner := owner, updatedAt := now))
      case None => None
      case Some(u) => Some(db.(statuses := db.statuses[id := u.(owner := owner)]))
  }

  // ---------- BatchUpdatePeerStatuses ----------

  /** The rows a batch rewrites: listed, of an existing peer and not owned by any node. */
  predicate BatchTouches(db: Db, ids: set<PeerId>, id: PeerId) {
    id in ids && id in db.peers && (id in db.statuses ==> db.statuses[id].owner == "")
  }

  predicate BatchFails(db: Db, updates: map<PeerId, StatusUpdate>, now: Time) {
    exists id <- updates :: BatchTouches(db, updates.Keys, id) && updates[id](StatusOrFresh(db, id, now)).None?
  }

  function BatchRows(db: Db, updates: map<PeerId, StatusUpdate>, now: Time): (rows: map<PeerId, PeerStatus>)
    requires !BatchFails(db, updates, now)
    ensures forall id :: id in rows <==> BatchTouches(db, updates.Keys, id)
    ensures forall id <- rows :: id in updates && updates[id](StatusOrFresh(db, id, now)) == Some(rows[id])
  {
    map id | id in updates.Keys && BatchTouches(db, updates.Keys, id) :: updates[id](StatusOrFresh(db, id, now)).value
  }

  function BatchUpdate(db: Db, updates: map<PeerId, StatusUpdate>, now: Time): Option<Db> {
    if BatchFails(db, updates, now) then None
    else Some(db.(statuses := db.statuses + BatchRows(db, updates, now)))
  }

  // ---------- SavePeer, DeletePeer, DeletePeersByIDs, DeletePeerStatus, DeleteInterface ----------

  const NO_TEXT: ConfigOption<string> := ConfigOption("", false)

  function BlankPeer(id: PeerId, stamp: Stamp): Peer {
    Peer(id, "", "", "", "", NO_TEXT, NO_TEXT, NO_TEXT, "", "", ConfigOption(0, false), None, "", None, false, false,
         BaseModel(stamp.user, stamp.user, stamp.at, stamp.at),
         PeerInterfaceConfig("", "", Any, [], "", NO_TEXT, NO_TEXT, ConfigOption(0, false), ConfigOption(0, false),
                             NO_TEXT, NO_TEXT, NO_TEXT, NO_TEXT, NO_TEXT))
  }

  function PeerOrBlank(db: Db, id: PeerId, stamp: Stamp): Peer {
    if id in db.peers then db.peers[id] else BlankPeer(id, stamp)
  }

  function Stamped(p: Peer, stamp: Stamp): Peer {
    p.(base := p.base.(updatedBy := stamp.user, updatedAt := stamp.at))
  }

  function AddressRows(p: Peer): set<(PeerId, Cidr)> {
    set c | c in p.config.addresses :: (p.id, c)
  }

  function AddressesWithout(addresses: set<(PeerId, Cidr)>, ids: set<PeerId>): set<(PeerId, Cidr)> {
    set a | a in addresses && a.0 !in ids
  }

  /** Saves under the identifier the callback returned; the row for id itself is created first. A
      status row is created if missing and reset when the identifier changed. */
  function SavePeerTx(db: Db, id: PeerId, update: PeerUpdate, stamp: Stamp): Option<Db> {
    match update(PeerOrBlank(db, id, stamp))
    case None => None
    case Some(p) =>
      var saved := Stamped(p, stamp);
      Some(Db(db.peers[id := PeerOrBlank(db, id, stamp)][saved.id := saved],
              AddressesWithout(db.addresses, {saved.id}) + AddressRows(saved),
              if id !in db.statuses || saved.id != id then db.statuses[id := FreshStatus(stamp.at)] else db.statuses))
  }

  function DeletePeers(db: Db, ids: set<PeerId>): Db {
    Db(db.peers - ids, AddressesWithout(db.addresses, ids), db.statuses - ids)
  }

  function DeleteStatusRow(db: Db, id: PeerId): Db {
    db.(statuses := db.statuses - {id})
  }

  /** Removes the peers of an interface but neither their statuses nor their addresses. */
  function DeleteInterfaceTx(db: Db, iface: IfaceId): Db {
    db.(peers := db.peers - set id | id in db.peers && db.peers[id].iface == iface)
  }

  // ---------- runs of transactions ----------

  datatype Tx =
    | Update(node: NodeId, id: PeerId, change: StatusUpdate, at: Time)
    | Claim(id: PeerId, claimer: NodeId, claim: StatusUpdate, at: Time)
    | Batch(changes: map<PeerId, StatusUpdate>, at: Time)
    | Save(id: PeerId, edit: PeerUpdate, stamp: Stamp)
    | Delete(ids: set<PeerId>)
    | DropStatus(id: PeerId)

  /** A failed transaction leaves the tables as they were. */
  function Apply(db: Db, tx: Tx): Db {
    var r := match tx
      case Update(node, id, f, now) => UpdateStatus(db, node, id, f, now)
      case Claim(id, owner, f, now) => ClaimStatus(db, id, owner, f, now)
      case Batch(fs, now) => BatchUpdate(db, fs, now)
      case Save(id, f, stamp) => SavePeerTx(db, id, f, stamp)
      case Delete(ids) => Some(DeletePeers(db, ids))
      case DropStatus(id) => Some(DeleteStatusRow(db, id));
    if r.Some? then r.value else db
  }

  function ApplyAll(db: Db, txs: seq<Tx>): Db {
    if txs == [] then db else Apply(ApplyAll(db, txs[..|txs| - 1]), txs[|txs| - 1])
  }

  // ---------- no orphaned rows ----------

  predicate NoOrphans(db: Db) {
    && db.statuses.Keys <= db.peers.Keys
    && forall a <- db.addresses :: a.0 in db.peers
  }

  lemma ApplyKeepsNoOrphans(db: Db, tx: Tx)
    requires NoOrphans(db)
    ensures NoOrphans(Apply(db, tx))
  {
  }

  /** In every reachable state each status row and each address belongs to an existing peer, whatever
      the order of saves, deletions, updates, claims and batches. */
  lemma {:induction false} NoOrphansEver(db: Db, txs: seq<Tx>)
    requires NoOrphans(db)
    ensures NoOrphans(ApplyAll(db, txs))
  {
    if txs != [] {
      NoOrphansEver(db, txs[..|txs| - 1]);
      ApplyKeepsNoOrphans(ApplyAll(db, txs[..|txs| - 1]), txs[|txs| - 1]);
    }
  }

  /** Nothing but SavePeer brings a deleted peer or its status row back. */
  lemma NoResurrection(db: Db, tx: Tx, id: PeerId)
    requires NoOrphans(db) && id !in db.peers && !tx.Save?
    ensures id !in Apply(db, tx).peers && id !in Apply(db, tx).statuses
  {
    ApplyKeepsNoOrphans(db, tx);
  }

  /** Deleting an interface at repository level keeps the tables free of orphans exactly when none
      of its peers still has a status row or an address. */
  lemma DeleteInterfaceOrphans(db: Db, iface: IfaceId)
    requires NoOrphans(db)
    ensures NoOrphans(DeleteInterfaceTx(db, iface)) <==>
            forall id <- db.peers :: db.peers[id].iface == iface ==>
              id !in db.statuses && forall a <- db.addresses :: a.0 != id
  {
    var db' := DeleteInterfaceTx(db, iface);
    assert forall id :: id in db'.peers <==> id in db.peers && db.peers[id].iface != iface;
    if NoOrphans(db') {
      forall id | id in db.peers && db.peers[id].iface == iface
        ensures id !in db.statuses && forall a <- db.addresses :: a.0 != id
      {
        assert id !in db'.peers;
      }
    }
  }

  // ---------- the address table ----------

  /** The address table holds exactly the addresses of the stored rows. */
  ghost predicate Mirrors(db: Db) {
    && (forall id <- db.peers :: db.peers[id].id == id)
    && forall id, c :: (id, c) in db.addresses <==> id in db.peers && c in db.peers[id].config.addresses
  }

  lemma ApplyKeepsMirror(db: Db, tx: Tx)
    requires Mirrors(db)
    ensures Mirrors(Apply(db, tx))
  {
  }

  /** In every reachable state the address table mirrors the rows. */
  lemma {:induction false} MirrorsEver(db: Db, txs: seq<Tx>)
    requires Mirrors(db)
    ensures Mirrors(ApplyAll(db, txs))
  {
    if txs != [] {
      MirrorsEver(db, txs[..|txs| - 1]);
      ApplyKeepsMirror(ApplyAll(db, txs[..|txs| - 1]), txs[|txs| - 1]);
    }
  }

  // ---------- new rows ----------

  /** A status nobody has written yet. */
  predicate IsBlank(s: PeerStatus, now: Time) {
    && s.updatedAt == now && !s.connected && !s.pingable && s.owner == "" && s.received == 0 && s.transmitted == 0
    && s.lastHandshake == None && s.lastPing == None && s.sessionStart == None && s.endpoint == ""
  }

  /** A peer saved for the first time carries the stamps of that save, is enabled, never expires and has a
      blank status; a later save that keeps the stored stamps changes who saved it last, and when, only. */
  lemma CreationStampsSurvive(db: Db, id: PeerId, first: Stamp, later: Stamp)
    requires id !in db.peers && id !in db.statuses
    ensures var d1 := Apply(db, Save(id, r => Some(r), first));
            var d2 := Apply(d1, Save(id, r => Some(r), later));
            && id in d1.peers && d1.peers[id].id == id
            && d1.peers[id].base == BaseModel(first.user, first.user, first.at, first.at)
            && !d1.peers[id].IsDisabled() && d1.peers[id].expiresAt == None && !d1.peers[id].ttlLocked
            && id in d1.statuses && IsBlank(d1.statuses[id], first.at)
            && d2.peers == d1.peers[id := d1.peers[id].(base := BaseModel(first.user, later.user, first.at, later.at))]
            && d2.statuses == d1.statuses
  {
  }

  // ---------- roaming ----------

  predicate ConnectedAt(db: Db, id: PeerId, node: NodeId) {
    id in db.statuses && db.statuses[id].connected && db.statuses[id].owner == node
  }

  /** The transactions that may change who owns a connected row: an update by the owner itself, a
      claim, a deletion, and a save that gives the peer a new identifier. */
  predicate MayTakeOver(db: Db, tx: Tx, id: PeerId, owner: NodeId) {
    match tx
    case Update(node, i, _, _) => i == id && node == owner
    case Claim(i, _, _, _) => i == id
    case Batch(_, _) => false
    case Save(i, edit, stamp) => i == id && var p := edit(PeerOrBlank(db, id, stamp)); p.Some? && p.value.id != id
    case Delete(ids) => id in ids
    case DropStatus(i) => i == id
  }

  lemma OthersCannotDisturb(db: Db, tx: Tx, id: PeerId, owner: NodeId)
    requires owner != "" && ConnectedAt(db, id, owner) && !MayTakeOver(db, tx, id, owner)
    ensures ConnectedAt(Apply(db, tx), id, owner)
    ensures Apply(db, tx).statuses[id].pingable == db.statuses[id].pingable
  {
  }

  ghost predicate Undisturbed(db: Db, txs: seq<Tx>, id: PeerId, owner: NodeId) {
    forall k :: 0 <= k < |txs| ==> !MayTakeOver(ApplyAll(db, txs[..k]), txs[k], id, owner)
  }

  /** Once a row is connected and owned, no run of other nodes' updates with whatever callback, of
      batches, of identifier-preserving saves and of transactions on other peers changes whether it
      is connected, whether it is pingable, or its owner. */
  lemma {:induction false} RoamingSafety(db: Db, txs: seq<Tx>, id: PeerId, owner: NodeId)
    requires owner != "" && ConnectedAt(db, id, owner) && Undisturbed(db, txs, id, owner)
    ensures ConnectedAt(ApplyAll(db, txs), id, owner)
    ensures ApplyAll(db, txs).statuses[id].pingable == db.statuses[id].pingable
  {
    if txs != [] {
      var n := |txs| - 1;
      assert forall k :: 0 <= k < n ==> txs[..n][..k] == txs[..k];
      RoamingSafety(db, txs[..n], id, owner);
      OthersCannotDisturb(ApplyAll(db, txs[..n]), txs[n], id, owner);
    }
  }
}
