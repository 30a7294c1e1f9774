/** internal/adapters/database.go: the repository object, its retry loops and its chunked deletion. */
module SqlRepository {
  import opened Options
  import opened Cidrs
  import opened Domain
  import opened PeerStore

  /** How one attempt of a transaction ends: it commits, or it is rolled back with an error the
      caller retries, or with one it does not. */
  datatype TxFault = Fine | Retryable | Fatal

  /** The retry loop commits: some attempt from n on, before the limit, is fine and all attempts
      before it were retried. */
  predicate Commits(faults: nat -> TxFault, n: nat, limit: nat)
    decreases limit - n
  {
    n < limit && (faults(n) == Fine || (faults(n) == Retryable && Commits(faults, n + 1, limit)))
  }

  /** A chunk deletion that fails does so at one of its statements: 0 is BEGIN, then the addresses,
      the statuses, the peers, and COMMIT as 4. */
  datatype ChunkFault = NoFault | FailAt(stage: nat, deadlock: bool)

  predicate Retries(f: ChunkFault) {
    f.FailAt? && f.stage <= 4 && (f.stage == 0 || f.deadlock)
  }

  /** The same for the four attempts at a chunk. */
  predicate ChunkCommits(faults: (nat, nat) -> ChunkFault, chunk: nat, n: nat)
    decreases 4 - n
  {
    n < 4 && (Completes(faults(chunk, n)) || (Retries(faults(chunk, n)) && ChunkCommits(faults, chunk, n + 1)))
  }

  ghost predicate FirstChunksCommit(faults: (nat, nat) -> ChunkFault, chunks: nat) {
    chunks == 0 || (FirstChunksCommit(faults, chunks - 1) && ChunkCommits(faults, chunks - 1, 0))
  }

  predicate Completes(f: ChunkFault) {
    f.NoFault? || f.stage > 4
  }

  const CHUNK_SIZE: nat := 200

  function IdSet(ids: seq<PeerId>): set<PeerId> {
    if ids == [] then {} else IdSet(ids[..|ids| - 1]) + {ids[|ids| - 1]}
  }

  lemma {:induction false} IdSetMembers(ids: seq<PeerId>)
    ensures forall id :: id in IdSet(ids) <==> id in ids
  {
    if ids != [] {
      IdSetMembers(ids[..|ids| - 1]);
      assert ids == ids[..|ids| - 1] + [ids[|ids| - 1]];
    }
  }

  predicate IsExpired(p: Peer, now: Time) {
    p.expiresAt.Some? && p.expiresAt.value < now
  }

  datatype ExpiredRow = ExpiredRow(id: PeerId, iface: IfaceId)

  predicate ExpiredRowOf(r: ExpiredRow, p: Peer, now: Time) {
    IsExpired(p, now) && r.iface == p.iface
  }

  class SqlRepo {
    const clusterNodeId: NodeId
    const master: bool
    var peers: map<PeerId, Peer>
    var addresses: set<(PeerId, Cidr)>
    var statuses: map<PeerId, PeerStatus>
    /** The peers the metrics callback was called for. */
    var metricsRemoved: seq<PeerId>

    constructor (clusterNodeId: NodeId, master: bool)
      ensures State() == Db(map[], {}, map[]) && this.clusterNodeId == clusterNodeId && this.master == master
    {
      this.clusterNodeId, this.master := clusterNodeId, master;
      peers, addresses, statuses, metricsRemoved := map[], {}, map[], [];
    }

    function State(): Db
      reads this
    {
      Db(peers, addresses, statuses)
    }

    method SavePeer(id: PeerId, update: PeerUpdate, stamp: Stamp) returns (ok: bool)
      modifies this
      ensures ok == SavePeerTx(old(State()), id, update, stamp).Some?
      ensures State() == if ok then SavePeerTx(old(State()), id, update, stamp).value else old(State())
      ensures ok ==>
                var p := update(PeerOrBlank(old(State()), id, stamp)).value;
                && p.id in peers && peers[p.id].(base := p.base) == p
                && peers[p.id].base == p.base.(updatedBy := stamp.user, updatedAt := stamp.at)
                && forall q, c :: (q, c) in addresses <==>
                     if q == p.id then c in p.config.addresses else (q, c) in old(addresses)
      ensures ok && id !in old(statuses) ==> id in statuses && IsBlank(statuses[id], stamp.at)
      ensures metricsRemoved == old(metricsRemoved) +
              if ok && id in old(statuses) && update(PeerOrBlank(old(State()), id, stamp)).value.id != id
              then [id] else []
    {
      var before := peers;
      if id !in peers {
        peers := peers[id := BlankPeer(id, stamp)];
      }
      var changed := update(peers[id]);
      if changed.None? {
        peers := before;
        return false;
      }
      var peer := Stamped(changed.value, stamp);
      peers := peers[peer.id := peer];
      addresses := AddressesWithout(addresses, {peer.id}) + AddressRows(peer);
      if id in statuses && peer.id != id {
        metricsRemoved := metricsRemoved + [id];
        statuses := statuses[id := FreshStatus(stamp.at)];
      } else if id !in statuses {
        statuses := statuses[id := FreshStatus(stamp.at)];
      }
      return true;
    }

    method DeletePeer(id: PeerId)
      modifies this
      ensures State() == DeletePeers(old(State()), {id})
      ensures forall q, c :: (q, c) in addresses <==> q != id && (q, c) in old(addresses)
      ensures metricsRemoved == old(metricsRemoved) + [id]
    {
      addresses := AddressesWithout(addresses, {id});
      peers := peers - {id};
      statuses := statuses - {id};
      metricsRemoved := metricsRemoved + [id];
    }

    method DeletePeerStatus(id: PeerId)
      modifies this`statuses, this`metricsRemoved
      ensures State() == DeleteStatusRow(old(State()), id)
      ensures metricsRemoved == old(metricsRemoved) + [id]
    {
      statuses := statuses - {id};
      metricsRemoved := metricsRemoved + [id];
    }

    method GetOrCreatePeerStatus(id: PeerId, now: Time) returns (r: Option<PeerStatus>)
      modifies this`statuses
      ensures r == if id in old(statuses) || id in peers then Some(StatusOrFresh(old(State()), id, now)) else None
      ensures id in old(statuses) || r.None? ==> statuses == old(statuses)
      ensures id !in old(statuses) && r.Some? ==> statuses == old(statuses)[id := r.value] && IsBlank(r.value, now)
    {
      if id in statuses {
        return Some(statuses[id]);
      }
      if id !in peers {
        return None;
      }
      statuses := statuses[id := FreshStatus(now)];
      return Some(statuses[id]);
    }

    /** One transaction attempt of UpdatePeerStatus; an error leaves the table changed until the
        caller rolls it back. */
    method TryUpdate(id: PeerId, update: StatusUpdate, now: Time) returns (ok: bool)
      modifies this`statuses
      ensures ok == UpdateStatus(old(State()), clusterNodeId, id, update, now).Some?
      ensures ok ==> State() == UpdateStatus(old(State()), clusterNodeId, id, update, now).value
    {
      if id !in peers {
        return true;
      }
      var row := GetOrCreatePeerStatus(id, now);
      var oldIsConnected, oldIsPingable, oldOwnerNodeId := row.value.connected, row.value.pingable, row.value.owner;
      var changed := update(row.value);
      if changed.None? {
        return false;
      }
      var in' := changed.value;
      if oldIsConnected && oldOwnerNodeId != "" && oldOwnerNodeId != clusterNodeId {
        in' := in'.(connected := oldIsConnected, pingable := oldIsPingable, owner := oldOwnerNodeId);
      }
      if !in'.connected && in'.owner != "" {
        in' := in'.(owner := "");
      }
      statuses := statuses[id := in'];
      return true;
    }

    method UpdatePeerStatus(id: PeerId, update: StatusUpdate, now: Time, faults: nat -> TxFault) returns (ok: bool)
      modifies this`statuses
      ensures ok <==> Commits(faults, 0, 10) && UpdateStatus(old(State()), clusterNodeId, id, update, now).Some?
      ensures State() == if ok then UpdateStatus(old(State()), clusterNodeId, id, update, now).value else old(State())
    {
      for attempt := 0 to 10
        invariant State() == old(State())
        invariant Commits(faults, 0, 10) == Commits(faults, attempt, 10)
      {
        var before := statuses;
        ok := TryUpdate(id, update, now);
        if faults(attempt) == Fine && ok {
          return true;
        }
        statuses := before;
        if faults(attempt) != Retryable {
          return false;
        }
      }
      return false;
    }

    method ClaimPeerStatus(id: PeerId, ownerNodeId: NodeId, update: StatusUpdate, now: Time, faults: nat -> TxFault)
      returns (ok: bool)
      modifies this`statuses
      ensures ok <==> Commits(faults, 0, 10) && ClaimStatus(old(State()), id, ownerNodeId, update, now).Some?
      ensures State() == if ok then ClaimStatus(old(State()), id, ownerNodeId, update, now).value else old(State())
    {
      if ownerNodeId == "" {
        return false;
      }
      for attempt := 0 to 10
        invariant State() == old(State())
        invariant Commits(faults, 0, 10) == Commits(faults, attempt, 10)
      {
        var before := statuses;
        ok := TryClaim(id, ownerNodeId, update, now);
        if faults(attempt) == Fine && ok {
          return true;
        }
        statuses := before;
        if faults(attempt) != Retryable {
          return false;
        }
      }
      return false;
    }

    method TryClaim(id: PeerId, ownerNodeId: NodeId, update: StatusUpdate, now: Time) returns (ok: bool)
      requires ownerNodeId != ""
      modifies this`statuses
      ensures ok == ClaimStatus(old(State()), id, ownerNodeId, update, now).Some?
      ensures ok ==> State() == ClaimStatus(old(State()), id, ownerNodeId, update, now).value
    {
      var row := GetOrCreatePeerStatus(id, now);
      if row.None? {
        return false;
      }
      var changed := update(row.value.(owner := ownerNodeId, updatedAt := now));
      if changed.None? {
        return false;
      }
      statuses := statuses[id := changed.value.(owner := ownerNodeId)];
      return true;
    }

    /** One attempt of the batch: loads and changes the rows one by one, then writes them all. */
    method TryBatch(updates: map<PeerId, StatusUpdate>, now: Time) returns (ok: bool)
      modifies this`statuses
      ensures ok == BatchUpdate(old(State()), updates, now).Some?
      ensures ok ==> State() == BatchUpdate(old(State()), updates, now).value
    {
      ghost var start := State();
      var todo := updates.Keys;
      var allStatuses: map<PeerId, PeerStatus> := map[];
      while todo != {}
        invariant todo <= updates.Keys
        invariant BatchProgress(start, updates, now, todo, allStatuses)
        invariant Covers(statuses, start.statuses, allStatuses)
      {
        var id :| id in todo;
        todo := todo - {id};
        if id in peers {
          var row := GetOrCreatePeerStatus(id, now);
          if row.value.owner == "" {
            var changed := updates[id](row.value);
            if changed.None? {
              return false;
            }
            allStatuses := allStatuses[id := changed.value];
          }
        }
      }
      BatchComplete(start, updates, now, allStatuses, statuses);
      statuses := statuses + allStatuses;
      return true;
    }

    method BatchUpdatePeerStatuses(updates: map<PeerId, StatusUpdate>, now: Time, faults: nat -> TxFault)
      returns (ok: bool)
      modifies this`statuses
      ensures ok <==> updates == map[] || (Commits(faults, 0, 5) && BatchUpdate(old(State()), updates, now).Some?)
      ensures State() == if ok then BatchUpdate(old(State()), updates, now).value else old(State())
      ensures ok ==> forall id ::
                if id in updates && id in peers && (id in old(statuses) ==> old(statuses)[id].owner == "")
                then id in statuses && updates[id](StatusOrFresh(old(State()), id, now)) == Some(statuses[id])
                else (id in statuses <==> id in old(statuses)) && (id in statuses ==> statuses[id] == old(statuses)[id])
    {
      if |updates| == 0 {
        BatchNone(State(), updates, now);
        return true;
      }
      for attempt := 0 to 5
        invariant State() == old(State())
        invariant Commits(faults, 0, 5) == Commits(faults, attempt, 5)
      {
        var before := statuses;
        ok := TryBatch(updates, now);
        if faults(attempt) == Fine && ok {
          return true;
        }
        statuses := before;
        if faults(attempt) != Retryable {
          return false;
        }
      }
      return false;
    }

    // ---------- expiry ----------

    /** The query selects two columns; the rows come in no particular order. */
    method GetExpiredPeers(now: Time) returns (rows: seq<ExpiredRow>)
      ensures forall r :: r in rows <==> r.id in peers && ExpiredRowOf(r, peers[r.id], now)
      ensures forall i, j :: 0 <= i < j < |rows| ==> rows[i].id != rows[j].id
    {
      rows := [];
      var todo := peers.Keys;
      while todo != {}
        invariant todo <= peers.Keys
        invariant forall r :: r in rows <==> r.id in peers.Keys - todo && ExpiredRowOf(r, peers[r.id], now)
        invariant forall i, j :: 0 <= i < j < |rows| ==> rows[i].id != rows[j].id
      {
        var id :| id in todo;
        todo := todo - {id};
        if peers[id].expiresAt.Some? && peers[id].expiresAt.value < now {
          rows := rows + [ExpiredRow(id, peers[id].iface)];
        }
      }
    }

    /** Deletes one chunk in one transaction, with up to four attempts. */
    method DeleteChunk(chunk: seq<PeerId>, number: nat, faults: (nat, nat) -> ChunkFault) returns (rows: nat, ok: bool)
      modifies this`peers, this`addresses, this`statuses
      ensures ok <==> ChunkCommits(faults, number, 0)
      ensures State() == if ok then DeletePeers(old(State()), IdSet(chunk)) else old(State())
      ensures rows == |old(peers)| - |peers|
    {
      var ids := IdSet(chunk);
      for attempt := 0 to 4
        invariant State() == old(State())
        invariant ChunkCommits(faults, number, 0) == ChunkCommits(faults, number, attempt)
      {
        var f := faults(number, attempt);
        if f.FailAt? && f.stage == 0 {
          continue;
        }
        var oldPeers, oldAddresses, oldStatuses := peers, addresses, statuses;
        addresses := AddressesWithout(addresses, ids);
        if !(f.FailAt? && f.stage == 1) {
          statuses := statuses - ids;
          if !(f.FailAt? && f.stage == 2) {
            peers := peers - ids;
            if !(f.FailAt? && f.stage <= 4) {
              RowsRemoved(oldPeers, ids);
              return |oldPeers| - |peers|, true;
            }
          }
        }
        peers, addresses, statuses := oldPeers, oldAddresses, oldStatuses;
        if !f.deadlock {
          return 0, false;
        }
      }
      return 0, false;
    }

    /** Deletes in chunks of 200. Success removes every listed peer from all three tables; an error
        leaves exactly the chunks before the first failing one removed. The count is the number of
        peer rows removed, and the callback ran for exactly the peers of committed chunks. */
    method DeletePeersByIDs(peerIDs: seq<PeerId>, faults: (nat, nat) -> ChunkFault)
      returns (totalDeleted: nat, ok: bool, ghost chunks: nat, ghost done: nat)
      modifies this`peers, this`addresses, this`statuses, this`metricsRemoved
      ensures done <= |peerIDs| && State() == DeletePeers(old(State()), IdSet(peerIDs[..done]))
      ensures ok ==> done == |peerIDs| && |peerIDs| <= chunks * 200 < |peerIDs| + 200
      ensures !ok ==> done == chunks * 200 < |peerIDs| && !ChunkCommits(faults, chunks, 0)
      ensures forall q, c :: (q, c) in addresses <==> q !in peerIDs[..done] && (q, c) in old(addresses)
      ensures FirstChunksCommit(faults, chunks)
      ensures totalDeleted == |old(peers)| - |peers|
      ensures metricsRemoved == old(metricsRemoved) + peerIDs[..done]
    {
      hide DeletePeers, IdSet, ChunkCommits;
      totalDeleted, chunks, done := 0, 0, 0;
      ghost var first, current := State(), State();
      DeleteNone(first);
      var start: nat, number: nat := 0, 0;
      while start < |peerIDs|
        invariant start == number * CHUNK_SIZE && start < |peerIDs| + CHUNK_SIZE
        invariant done == if start <= |peerIDs| then start else |peerIDs|
        invariant peers == current.peers && addresses == current.addresses && statuses == current.statuses
        invariant DeletedUpTo(first, current, peerIDs, done)
        invariant FirstChunksCommit(faults, number)
        invariant totalDeleted == |first.peers| - |peers|
        invariant metricsRemoved == old(metricsRemoved) + peerIDs[..done]
      {
        var end := start + CHUNK_SIZE;
        if end > |peerIDs| {
          end := |peerIDs|;
        }
        var rows, deleted := DeleteChunk(peerIDs[start..end], number, faults);
        if !deleted {
          AddressesGone(first, current, peerIDs, done);
          return totalDeleted, false, number, done;
        }
        ghost var soFar := current;
        current := State();
        DeleteMore(first, soFar, current, peerIDs, start, end);
        totalDeleted := totalDeleted + rows;
        Grow(old(metricsRemoved), peerIDs, start, end);
        metricsRemoved := metricsRemoved + peerIDs[start..end];
        done := end;
        start, number := start + CHUNK_SIZE, number + 1;
      }
      AddressesGone(first, current, peerIDs, done);
      return totalDeleted, true, number, done;
    }

    /** The identifiers of the rows that have expired. */
    method ExpiredIds(now: Time) returns (ids: seq<PeerId>)
      ensures forall id :: id in ids <==> id in peers && IsExpired(peers[id], now)
    {
      var rows := GetExpiredPeers(now);
      assert forall id <- peers :: IsExpired(peers[id], now) ==> ExpiredRow(id, peers[id].iface) in rows;
      ids := [];
      for i := 0 to |rows|
        invariant forall id :: id in ids <==> exists j :: 0 <= j < i && rows[j].id == id
      {
        ids := ids + [rows[i].id];
      }
    }

    /** The master's cleanup. The identifiers it returns are the ones announced to the other nodes. */
    method FindAndDeleteExpiredPeersWithLock(now: Time, faults: (nat, nat) -> ChunkFault)
      returns (announced: seq<PeerId>, ok: bool)
      modifies this`peers, this`addresses, this`statuses, this`metricsRemoved
      ensures !master ==> State() == old(State()) && announced == []
      ensures master && ok ==>
                State() == DeletePeers(old(State()), set id | id in old(peers) && IsExpired(old(peers)[id], now))
      ensures forall id <- old(peers) :: !IsExpired(old(peers)[id], now) ==> id in peers
      ensures forall id <- announced :: id in old(peers) && id !in peers
      ensures (forall id <- old(peers) :: id !in peers ==> id in announced) <==> ok || peers == old(peers)
    {
      if !master {
        return [], true;
      }
      var peerIDs := ExpiredIds(now);
      if |peerIDs| == 0 {
        DeleteNone(State());
        assert (set id | id in old(peers) && IsExpired(old(peers)[id], now)) == {};
        return [], true;
      }
      var deletedCount, deleted, chunks, done := DeletePeersByIDs(peerIDs, faults);
      if !deleted {
        IdSetMembers(peerIDs[..done]);
        return [], false;
      }
      assert peerIDs[..done] == peerIDs;
      IdSetMembers(peerIDs);
      assert IdSet(peerIDs) == set id | id in old(peers) && IsExpired(old(peers)[id], now);
      return peerIDs, true;
    }
  }

  ghost predicate BatchProgress(db: Db, updates: map<PeerId, StatusUpdate>, now: Time, todo: set<PeerId>,
                                rows: map<PeerId, PeerStatus>) {
    && (forall id :: id in rows <==> id !in todo && BatchTouches(db, updates.Keys, id))
    && (forall id <- rows :: updates[id](StatusOrFresh(db, id, now)) == Some(rows[id]))
  }

  /** m agrees with m0 outside rows. */
  ghost predicate Covers(m: map<PeerId, PeerStatus>, m0: map<PeerId, PeerStatus>, rows: map<PeerId, PeerStatus>) {
    forall id :: id !in rows ==> (id in m <==> id in m0) && (id in m ==> m[id] == m0[id])
  }

  lemma BatchComplete(db: Db, updates: map<PeerId, StatusUpdate>, now: Time, rows: map<PeerId, PeerStatus>,
                      m: map<PeerId, PeerStatus>)
    requires BatchProgress(db, updates, now, {}, rows) && Covers(m, db.statuses, rows)
    ensures BatchUpdate(db, updates, now) == Some(db.(statuses := m + rows))
  {
    assert !BatchFails(db, updates, now);
    assert rows == BatchRows(db, updates, now);
    assert m + rows == db.statuses + rows;
  }

  lemma BatchNone(db: Db, updates: map<PeerId, StatusUpdate>, now: Time)
    requires |updates| == 0
    ensures updates == map[] && BatchUpdate(db, updates, now) == Some(db)
  {
    assert updates.Keys == {};
    assert !BatchFails(db, updates, now);
    assert BatchRows(db, updates, now) == map[];
    assert db.statuses + map[] == db.statuses;
  }

  lemma RowsRemoved<K, V>(m: map<K, V>, ks: set<K>)
    ensures |m - ks| <= |m|
  {
    assert (m - ks).Keys == m.Keys - ks;
    SizeOfDifference(m.Keys, ks);
  }

  lemma SizeOfDifference<T>(a: set<T>, b: set<T>)
    ensures |a - b| <= |a|
  {
    assert a - b <= a;
    assert a == (a - b) + (a * b);
  }

  lemma DeleteNone(db: Db)
    ensures DeletePeers(db, IdSet([])) == db && DeletePeers(db, {}) == db
  {
    assert IdSet([]) == {};
    assert AddressesWithout(db.addresses, {}) == db.addresses;
  }

  lemma Grow<T>(m: seq<T>, ids: seq<T>, a: nat, b: nat)
    requires a <= b <= |ids|
    ensures m + ids[..a] + ids[a..b] == m + ids[..b]
  {
    assert ids[..b] == ids[..a] + ids[a..b];
  }

  ghost predicate DeletedUpTo(db: Db, db1: Db, ids: seq<PeerId>, n: nat) {
    n <= |ids| && db1 == DeletePeers(db, IdSet(ids[..n]))
  }

  lemma AddressesGone(db: Db, db1: Db, ids: seq<PeerId>, a: nat)
    requires a <= |ids| && DeletedUpTo(db, db1, ids, a)
    ensures forall q, c :: (q, c) in db1.addresses <==> q !in ids[..a] && (q, c) in db.addresses
  {
    IdSetMembers(ids[..a]);
  }

  lemma DeleteMore(db: Db, db1: Db, db2: Db, ids: seq<PeerId>, a: nat, b: nat)
    requires a <= b <= |ids|
    requires DeletedUpTo(db, db1, ids, a) && db2 == DeletePeers(db1, IdSet(ids[a..b]))
    ensures DeletedUpTo(db, db2, ids, b)
    ensures ids[..a] + ids[a..b] == ids[..b]
  {
    assert ids[..a] + ids[a..b] == ids[..b];
    IdSetMembers(ids[..a]);
    IdSetMembers(ids[a..b]);
    IdSetMembers(ids[..b]);
    assert IdSet(ids[..b]) == IdSet(ids[..a]) + IdSet(ids[a..b]);
    assert db.peers - IdSet(ids[..a]) - IdSet(ids[a..b]) == db.peers - IdSet(ids[..b]);
    assert db.statuses - IdSet(ids[..a]) - IdSet(ids[a..b]) == db.statuses - IdSet(ids[..b]);
  }
}
