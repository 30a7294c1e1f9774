/** The statistics collectors of a cluster (internal/app/wireguard/statistics.go, handshake mode) as
    steps over the shared tables and every node's cache of active peers. A transaction is one step. */
module Cluster {
  import opened Options
  import opened Domain
  import opened PeerStore

  // ---------- the callbacks the collector passes to the repository ----------

  function Measured(p: PeerStatus, w: PhysicalPeer, now: Time): PeerStatus {
    p.(updatedAt := now, lastHandshake := w.lastHandshake, endpoint := w.endpoint,
       received := w.bytesUpload, transmitted := w.bytesDownload, pingable := false)
  }

  function ClaimCallback(w: PhysicalPeer, now: Time): StatusUpdate {
    p => Some(Measured(p, w, now).(sessionStart := w.lastHandshake).CalcConnected(now))
  }

  function RefreshCallback(w: PhysicalPeer, now: Time): StatusUpdate {
    p => Some(Measured(p, w, now))
  }

  function DisconnectCallback(now: Time): StatusUpdate {
    (p: PeerStatus) =>
      var q := if p.connected || p.pingable then p.(received := 0, transmitted := 0) else p;
      Some(q.(connected := false, pingable := false, lastHandshake := None, updatedAt := now))
  }

  predicate IsActiveAt(w: PhysicalPeer, now: Time) {
    w.lastHandshake.Some? && w.lastHandshake.value > now - 2 * MINUTE
  }

  function FilterActivePeers(all: seq<PhysicalPeer>, now: Time): (active: seq<PhysicalPeer>)
    ensures forall w :: w in active <==> w in all && IsActiveAt(w, now)
    ensures forall w :: w in active <==>
              w in all && w.lastHandshake.Some? && w.lastHandshake.value > now - 120_000_000_000
  {
    if all == [] then []
    else
      var rest := FilterActivePeers(all[..|all| - 1], now);
      assert all == all[..|all| - 1] + [all[|all| - 1]];
      if IsActiveAt(all[|all| - 1], now) then rest + [all[|all| - 1]] else rest
  }

  // ---------- states ----------

  /** Where a node is in its collector cycle. The cache lock is held unless the node is idle. */
  datatype Phase =
    | Idle
    | Updating(iface: IfaceId, todo: seq<PhysicalPeer>, current: set<PeerId>, fetched: bool)
    | Aging(iface: IfaceId, current: set<PeerId>, leaving: Option<PeerId>)

  /** cache is activeConnectedPeers; expired holds the removal events not yet handled. */
  datatype Node = Node(cache: map<IfaceId, set<PeerId>>, phase: Phase, expired: seq<set<PeerId>>) {
    function Cached(iface: IfaceId): set<PeerId> {
      if iface in cache then cache[iface] else {}
    }

    predicate Knows(p: PeerId) {
      (exists i <- cache :: p in cache[i]) || (phase != Idle && p in phase.current)
    }

    function Uncache(iface: IfaceId, p: PeerId): Node {
      this.(cache := cache[iface := Cached(iface) - {p}])
    }

    function UncacheAll(ids: set<PeerId>): Node {
      this.(cache := map i | i in cache :: cache[i] - ids)
    }
  }

  datatype State = State(db: Db, nodes: map<NodeId, Node>)

  predicate Init(s: State) {
    && s.db == Db(map[], {}, map[])
    && "" !in s.nodes
    && forall n <- s.nodes :: s.nodes[n] == Node(map[], Idle, [])
  }

  // ---------- steps ----------

  datatype Action =
    /** A save or deletion through the API of any node. */
    | Api(tx: Tx)
    | StartInterface(node: NodeId, iface: IfaceId, wgPeers: seq<PhysicalPeer>, now: Time)
    | FetchActive(node: NodeId)
    | WriteActive(node: NodeId, now: Time)
    | EndUpdates(node: NodeId)
    | FetchLeaving(node: NodeId, peer: PeerId)
    | Disconnect(node: NodeId, now: Time)
    | EndInterface(node: NodeId)
    /** The master removes expired peers and queues the event for its own caches. */
    | DeleteExpired(node: NodeId, ids: set<PeerId>)
    | HandleExpired(node: NodeId)

  predicate Enabled(s: State, a: Action) {
    match a
    case Api(tx) => tx.Save? || tx.Delete? || tx.DropStatus?
    case StartInterface(n, _, _, _) => n in s.nodes && s.nodes[n].phase.Idle?
    case FetchActive(n) =>
      n in s.nodes && s.nodes[n].phase.Updating? && s.nodes[n].phase.todo != [] && !s.nodes[n].phase.fetched
    case WriteActive(n, _) =>
      n in s.nodes && s.nodes[n].phase.Updating? && s.nodes[n].phase.todo != [] && s.nodes[n].phase.fetched
    case EndUpdates(n) => n in s.nodes && s.nodes[n].phase.Updating? && s.nodes[n].phase.todo == []
    case FetchLeaving(n, p) =>
      && n in s.nodes && s.nodes[n].phase.Aging? && s.nodes[n].phase.leaving.None?
      && p in s.nodes[n].Cached(s.nodes[n].phase.iface) && p !in s.nodes[n].phase.current
    case Disconnect(n, _) => n in s.nodes && s.nodes[n].phase.Aging? && s.nodes[n].phase.leaving.Some?
    case EndInterface(n) =>
      && n in s.nodes && s.nodes[n].phase.Aging? && s.nodes[n].phase.leaving.None?
      && s.nodes[n].Cached(s.nodes[n].phase.iface) <= s.nodes[n].phase.current
    case DeleteExpired(n, _) => n in s.nodes
    case HandleExpired(n) => n in s.nodes && s.nodes[n].phase.Idle? && s.nodes[n].expired != []
  }

  /** A peer not yet cached for the interface is claimed, any other is refreshed. */
  function WriteTx(n: NodeId, nd: Node, w: PhysicalPeer, now: Time): Tx
    requires nd.phase.Updating?
  {
    if w.id in nd.Cached(nd.phase.iface) then Update(n, w.id, RefreshCallback(w, now), now)
    else Claim(w.id, n, ClaimCallback(w, now), now)
  }

  function Next(s: State, a: Action): State
    requires Enabled(s, a)
  {
    match a
    case Api(tx) => s.(db := Apply(s.db, tx))
    case StartInterface(n, iface, wgPeers, now) =>
      var nd := s.nodes[n];
      s.(nodes := s.nodes[n := nd.(cache := nd.cache[iface := nd.Cached(iface)],
                                   phase := Updating(iface, FilterActivePeers(wgPeers, now), {}, false))])
    case FetchActive(n) =>
      var ph := s.nodes[n].phase;
      var current := ph.current + {ph.todo[0].id};
      s.(nodes := s.nodes[n := s.nodes[n].(phase := if ph.todo[0].id in s.db.peers
                                                    then Updating(ph.iface, ph.todo, current, true)
                                                    else Updating(ph.iface, ph.todo[1..], current, false))])
    case WriteActive(n, now) =>
      var ph := s.nodes[n].phase;
      State(Apply(s.db, WriteTx(n, s.nodes[n], ph.todo[0], now)),
            s.nodes[n := s.nodes[n].(phase := ph.(todo := ph.todo[1..], fetched := false))])
    case EndUpdates(n) =>
      var ph := s.nodes[n].phase;
      s.(nodes := s.nodes[n := s.nodes[n].(phase := Aging(ph.iface, ph.current, None))])
    case FetchLeaving(n, p) =>
      var nd := s.nodes[n];
      s.(nodes := s.nodes[n := if p in s.db.peers then nd.(phase := nd.phase.(leaving := Some(p)))
                               else nd.Uncache(nd.phase.iface, p)])
    case Disconnect(n, now) =>
      var nd := s.nodes[n];
      var p := nd.phase.leaving.value;
      State(Apply(s.db, Update(n, p, DisconnectCallback(now), now)),
            s.nodes[n := nd.Uncache(nd.phase.iface, p).(phase := nd.phase.(leaving := None))])
    case EndInterface(n) =>
      var nd := s.nodes[n];
      s.(nodes := s.nodes[n := nd.(cache := nd.cache[nd.phase.iface := nd.phase.current], phase := Idle)])
    case DeleteExpired(n, ids) =>
      State(DeletePeers(s.db, ids), s.nodes[n := s.nodes[n].(expired := s.nodes[n].expired + [ids])])
    case HandleExpired(n) =>
      var nd := s.nodes[n];
      s.(nodes := s.nodes[n := nd.UncacheAll(nd.expired[0]).(expired := nd.expired[1..])])
  }

  predicate LegalRun(s: State, run: seq<Action>)
    decreases |run|, 0
  {
    run == [] || (LegalRun(s, run[..|run| - 1]) && Enabled(After(s, run[..|run| - 1]), run[|run| - 1]))
  }

  function After(s: State, run: seq<Action>): State
    requires LegalRun(s, run)
    decreases |run|, 1
  {
    if run == [] then s else Next(After(s, run[..|run| - 1]), run[|run| - 1])
  }

  // ---------- no ghosts ----------

  /** Every connected row names a node that knows the peer. */
  predicate NoGhosts(s: State) {
    forall p <- s.db.statuses :: s.db.statuses[p].connected ==>
      var owner := s.db.statuses[p].owner;
      owner != "" && owner in s.nodes && s.nodes[owner].Knows(p)
  }

  predicate Inv(s: State) {
    && "" !in s.nodes
    && NoOrphans(s.db)
    && NoGhosts(s)
    && (forall n <- s.nodes :: var ph := s.nodes[n].phase;
          ph.Updating? && ph.fetched ==> ph.todo != [] && ph.todo[0].id in ph.current)
  }

  /** No peer of the removal event about to be handled is connected at this node, as it could be after
      being created again under the same key. */
  predicate RemovesNoOnline(s: State, a: Action)
    requires Enabled(s, a)
  {
    a.HandleExpired? ==> forall p <- s.nodes[a.node].expired[0] :: !ConnectedAt(s.db, p, a.node)
  }

  /** A row that is connected with owner o after a change was so before, or was just claimed by o. */
  predicate Sources(before: Db, after: Db, claimer: NodeId, claimed: PeerId) {
    forall p <- after.statuses :: after.statuses[p].connected ==>
      || (p == claimed && claimer != "" && after.statuses[p].owner == claimer)
      || ConnectedAt(before, p, after.statuses[p].owner)
  }

  /** Everything but a batch, and no update that connects a row or moves it to another owner. */
  ghost predicate NeverConnects(tx: Tx) {
    && !tx.Batch?
    && (tx.Update? ==> forall p :: tx.change(p).Some? && tx.change(p).value.connected ==>
          p.connected && tx.change(p).value.owner == p.owner)
  }

  lemma ConnectedRowsHaveSources(db: Db, tx: Tx)
    requires NeverConnects(tx)
    ensures if tx.Claim? then Sources(db, Apply(db, tx), tx.claimer, tx.id) else Sources(db, Apply(db, tx), "", "")
  {
  }

  /** After its own age-out a node no longer owns the connection, whoever else may own it. */
  lemma DisconnectReleases(db: Db, n: NodeId, p: PeerId, now: Time)
    requires NoOrphans(db)
    ensures !ConnectedAt(Apply(db, Update(n, p, DisconnectCallback(now), now)), p, n)
  {
  }

  predicate IsLocal(a: Action) {
    !a.Api? && !a.WriteActive? && !a.Disconnect? && !a.DeleteExpired? && !a.HandleExpired?
  }

  lemma LocalStepKeepsKnown(s: State, a: Action, p: PeerId)
    requires Inv(s) && Enabled(s, a) && IsLocal(a)
    requires p in s.db.peers && s.nodes[a.node].Knows(p)
    ensures Next(s, a).nodes[a.node].Knows(p)
  {
    var nd, nd' := s.nodes[a.node], Next(s, a).nodes[a.node];
    if i :| i in nd.cache && p in nd.cache[i] {
      if a.EndInterface? && i == nd.phase.iface {
        assert p in nd'.cache[nd.phase.iface];
      } else {
        assert i in nd'.cache && p in nd'.cache[i];
      }
    } else if a.EndInterface? {
      assert p in nd'.cache[nd.phase.iface];
    }
  }

  /** Ghosts stay away when connected rows have sources and the nodes owning them keep knowing them. */
  lemma NoGhostsFrom(s: State, s': State, claimer: NodeId, claimed: PeerId)
    requires NoGhosts(s) && Sources(s.db, s'.db, claimer, claimed)
    requires claimer != "" ==> claimer in s'.nodes && s'.nodes[claimer].Knows(claimed)
    requires forall p <- s'.db.statuses :: var o := s'.db.statuses[p].owner;
      ConnectedAt(s'.db, p, o) && ConnectedAt(s.db, p, o) && o in s.nodes && s.nodes[o].Knows(p) ==>
        o in s'.nodes && s'.nodes[o].Knows(p)
    ensures NoGhosts(s')
  {
  }

  lemma WriteKeepsInv(s: State, a: Action)
    requires Inv(s) && Enabled(s, a) && a.WriteActive?
    ensures Inv(Next(s, a))
  {
    var s', nd, w := Next(s, a), s.nodes[a.node], s.nodes[a.node].phase.todo[0];
    var tx := WriteTx(a.node, nd, w, a.now);
    ApplyKeepsNoOrphans(s.db, tx);
    ConnectedRowsHaveSources(s.db, tx);
    assert s'.nodes[a.node].Knows(w.id);
    forall p | nd.Knows(p)
      ensures s'.nodes[a.node].Knows(p)
    {
    }
    NoGhostsFrom(s, s', if tx.Claim? then a.node else "", if tx.Claim? then w.id else "");
  }

  lemma DisconnectKeepsInv(s: State, a: Action)
    requires Inv(s) && Enabled(s, a) && a.Disconnect?
    ensures Inv(Next(s, a))
  {
    var s', nd := Next(s, a), s.nodes[a.node];
    var p := nd.phase.leaving.value;
    var tx := Update(a.node, p, DisconnectCallback(a.now), a.now);
    ApplyKeepsNoOrphans(s.db, tx);
    ConnectedRowsHaveSources(s.db, tx);
    DisconnectReleases(s.db, a.node, p, a.now);
    forall q | nd.Knows(q) && q != p
      ensures s'.nodes[a.node].Knows(q)
    {
      if i :| i in nd.cache && q in nd.cache[i] {
        assert i in s'.nodes[a.node].cache && q in s'.nodes[a.node].cache[i];
      }
    }
    NoGhostsFrom(s, s', "", "");
  }

  lemma LocalKeepsInv(s: State, a: Action)
    requires Inv(s) && Enabled(s, a) && IsLocal(a)
    ensures Inv(Next(s, a))
  {
    forall p | p in s.db.peers && s.nodes[a.node].Knows(p)
      ensures Next(s, a).nodes[a.node].Knows(p)
    {
      LocalStepKeepsKnown(s, a, p);
    }
    NoGhostsFrom(s, Next(s, a), "", "");
  }

  /** Handling a removal event is harmless exactly when no listed peer is connected at this node
      again, which takes a peer created anew under the same key. */
  lemma RemovalEventExact(s: State, n: NodeId)
    requires Inv(s) && Enabled(s, HandleExpired(n))
    ensures NoGhosts(Next(s, HandleExpired(n))) <==> forall p <- s.nodes[n].expired[0] :: !ConnectedAt(s.db, p, n)
  {
    var s', nd, nd' := Next(s, HandleExpired(n)), s.nodes[n], Next(s, HandleExpired(n)).nodes[n];
    forall p | p !in nd.expired[0] && nd.Knows(p)
      ensures nd'.Knows(p)
    {
      var i :| i in nd.cache && p in nd.cache[i];
      assert i in nd'.cache && p in nd'.cache[i];
    }
    forall p | p in nd.expired[0]
      ensures !nd'.Knows(p)
    {
    }
  }

  /** Of all steps only a removal event can leave a ghost, and exactly when it lists a peer that is
      connected at this node again. */
  lemma StepKeepsInv(s: State, a: Action)
    requires Inv(s) && Enabled(s, a)
    ensures Inv(Next(s, a)) <==> RemovesNoOnline(s, a)
  {
    if a.HandleExpired? {
      RemovalEventExact(s, a.node);
    } else if a.Api? {
      ApplyKeepsNoOrphans(s.db, a.tx);
      ConnectedRowsHaveSources(s.db, a.tx);
      NoGhostsFrom(s, Next(s, a), "", "");
    } else if a.DeleteExpired? {
      ApplyKeepsNoOrphans(s.db, Delete(a.ids));
      ConnectedRowsHaveSources(s.db, Delete(a.ids));
      NoGhostsFrom(s, Next(s, a), "", "");
    } else if a.WriteActive? {
      WriteKeepsInv(s, a);
    } else if a.Disconnect? {
      DisconnectKeepsInv(s, a);
    } else {
      LocalKeepsInv(s, a);
    }
  }

  predicate NeverLate(s: State, run: seq<Action>)
    requires LegalRun(s, run)
    decreases |run|
  {
    run == [] ||
    (NeverLate(s, run[..|run| - 1]) && RemovesNoOnline(After(s, run[..|run| - 1]), run[|run| - 1]))
  }

  /** No ghost-online peers: however the steps of any number of collectors, the API and the expiry
      cleanup interleave, a connected row names a node that has the peer in its active cache whenever
      that node is between interfaces. */
  lemma {:induction false} NoGhostOnline(s: State, run: seq<Action>)
    requires Init(s) && LegalRun(s, run) && NeverLate(s, run)
    ensures Inv(After(s, run))
    ensures var t := After(s, run);
            forall p <- t.db.statuses :: t.db.statuses[p].connected ==>
              var owner := t.db.statuses[p].owner;
              && owner != "" && owner in t.nodes
              && (t.nodes[owner].phase.Idle? ==> exists i <- t.nodes[owner].cache :: p in t.nodes[owner].cache[i])
    decreases |run|
  {
    if run != [] {
      NoGhostOnline(s, run[..|run| - 1]);
      StepKeepsInv(After(s, run[..|run| - 1]), run[|run| - 1]);
    }
  }

  /** No ghost at any moment of the run. */
  predicate GhostFree(s: State, run: seq<Action>)
    requires LegalRun(s, run)
    decreases |run|
  {
    NoGhosts(After(s, run)) && (run == [] || GhostFree(s, run[..|run| - 1]))
  }

  /** The condition is exact: a run from the empty start is free of ghosts throughout if and only if no
      removal event is handled while a peer it lists is connected at the handling node. */
  lemma {:induction false} GhostFreeExactly(s: State, run: seq<Action>)
    requires Init(s) && LegalRun(s, run)
    ensures GhostFree(s, run) <==> NeverLate(s, run)
    decreases |run|
  {
    if run != [] {
      var front, last := run[..|run| - 1], run[|run| - 1];
      GhostFreeExactly(s, front);
      if NeverLate(s, front) {
        NoGhostOnline(s, front);
        StepKeepsInv(After(s, front), last);
        if last.HandleExpired? {
          RemovalEventExact(After(s, front), last.node);
        }
      }
    }
  }

  /** The cleanup takes the rows and statuses of the listed peers, and theirs only, and queues their removal
      event behind the events the master has yet to handle. */
  lemma CleanupRemoves(s: State, n: NodeId, ids: set<PeerId>)
    requires Enabled(s, DeleteExpired(n, ids))
    ensures var t := Next(s, DeleteExpired(n, ids));
            && (forall p :: p in t.db.peers <==> p in s.db.peers && p !in ids)
            && (forall p :: p in t.db.statuses <==> p in s.db.statuses && p !in ids)
            && (forall p <- t.db.peers :: t.db.peers[p] == s.db.peers[p])
            && (forall p <- t.db.statuses :: t.db.statuses[p] == s.db.statuses[p])
            && t.nodes[n].expired == s.nodes[n].expired + [ids] && t.nodes[n].cache == s.nodes[n].cache
  {
  }

  /** A node that drops a peer although its disconnect transaction failed. */
  function DropWithoutCommit(s: State, n: NodeId): State
    requires n in s.nodes && s.nodes[n].phase.Aging? && s.nodes[n].phase.leaving.Some?
  {
    var nd := s.nodes[n];
    s.(nodes := s.nodes[n := nd.Uncache(nd.phase.iface, nd.phase.leaving.value).(phase := nd.phase.(leaving := None))])
  }

  /** Such a failure leaves a ghost exactly when the node owned the connection and knew the peer
      through this interface only. */
  lemma FailedDisconnectExact(s: State, n: NodeId)
    requires Inv(s) && n in s.nodes && s.nodes[n].phase.Aging? && s.nodes[n].phase.leaving.Some?
    ensures var p := s.nodes[n].phase.leaving.value;
            NoGhosts(DropWithoutCommit(s, n)) <==>
              !ConnectedAt(s.db, p, n) || p in s.nodes[n].phase.current ||
              exists i <- s.nodes[n].cache :: i != s.nodes[n].phase.iface && p in s.nodes[n].cache[i]
  {
    var p, nd, nd' := s.nodes[n].phase.leaving.value, s.nodes[n], DropWithoutCommit(s, n).nodes[n];
    forall q | q != p && nd.Knows(q)
      ensures nd'.Knows(q)
    {
      if i :| i in nd.cache && q in nd.cache[i] {
        assert i in nd'.cache && q in nd'.cache[i];
      }
    }
    if i :| i in nd.cache && i != nd.phase.iface && p in nd.cache[i] {
      assert i in nd'.cache && p in nd'.cache[i];
    }
  }

  lemma Snoc(s: State, run: seq<Action>, a: Action)
    requires LegalRun(s, run) && Enabled(After(s, run), a)
    ensures LegalRun(s, run + [a]) && After(s, run + [a]) == Next(After(s, run), a)
  {
    assert (run + [a])[..|run|] == run;
  }

  /** One full collector cycle over an interface on which only peer w was active and unknown. */
  lemma FirstCycle(s: State, run: seq<Action>, n: NodeId, w: PhysicalPeer, now: Time, pending: seq<set<PeerId>>)
    returns (run': seq<Action>)
    requires LegalRun(s, run) && n != "" && IsActiveAt(w, now)
    requires var t := After(s, run); n in t.nodes && t.nodes[n] == Node(map[], Idle, pending) && w.id in t.db.peers
    ensures LegalRun(s, run')
    ensures After(s, run').db == Apply(After(s, run).db, Claim(w.id, n, ClaimCallback(w, now), now))
    ensures After(s, run').nodes == After(s, run).nodes[n := Node(map["wg0" := {w.id}], Idle, pending)]
  {
    hide LegalRun, After, Apply;
    var t := After(s, run);
    FilterOne(w, now);
    Snoc(s, run, StartInterface(n, "wg0", [w], now));
    run' := run + [StartInterface(n, "wg0", [w], now)];
    assert After(s, run').nodes[n] == Node(map["wg0" := {}], Updating("wg0", [w], {}, false), pending);
    Snoc(s, run', FetchActive(n));
    run' := run' + [FetchActive(n)];
    assert {} + {w.id} == {w.id};
    Snoc(s, run', WriteActive(n, now));
    run' := run' + [WriteActive(n, now)];
    assert After(s, run').nodes[n].phase == Updating("wg0", [], {w.id}, false);
    Snoc(s, run', EndUpdates(n));
    run' := run' + [EndUpdates(n)];
    Snoc(s, run', EndInterface(n));
    run' := run' + [EndInterface(n)];
    assert After(s, run').nodes[n] == Node(map["wg0" := {w.id}], Idle, pending);
    assert After(s, run').nodes == t.nodes[n := Node(map["wg0" := {w.id}], Idle, pending)];
  }

  /** The condition on removal events is needed: a peer is removed as expired, created again and claimed
      by a collector cycle; the late removal event then leaves a ghost. */
  lemma ReusedKeyLeavesGhost(n: NodeId, peer: Peer, w: PhysicalPeer, now: Time) returns (run: seq<Action>)
    requires n != "" && peer.id == w.id && w.lastHandshake == Some(now)
    ensures var s := State(Db(map[], {}, map[]), map[n := Node(map[], Idle, [])]);
            && Init(s) && LegalRun(s, run) && ConnectedAt(After(s, run).db, w.id, n)
            && n in After(s, run).nodes && After(s, run).nodes[n].phase.Idle? && !After(s, run).nodes[n].Knows(w.id)
  {
    hide LegalRun, After, Apply;
    var s := State(Db(map[], {}, map[]), map[n := Node(map[], Idle, [])]);
    run := Recreation(s, n, peer, now);
    ClaimConnects(After(s, run).db, n, w, now);
    run := FirstCycle(s, run, n, w, now, [{w.id}]);
    Snoc(s, run, HandleExpired(n));
    run := run + [HandleExpired(n)];
  }

  /** A claim on a fresh handshake connects the row, whoever owned it before. */
  lemma ClaimConnects(db: Db, n: NodeId, w: PhysicalPeer, now: Time)
    requires n != "" && w.id in db.peers && IsActiveAt(w, now)
    ensures ConnectedAt(Apply(db, Claim(w.id, n, ClaimCallback(w, now), now)), w.id, n)
  {
  }

  lemma Recreation(s: State, n: NodeId, peer: Peer, now: Time) returns (run: seq<Action>)
    requires n in s.nodes && s.nodes[n] == Node(map[], Idle, [])
    ensures LegalRun(s, run) && peer.id in After(s, run).db.peers
    ensures n in After(s, run).nodes && After(s, run).nodes[n] == Node(map[], Idle, [{peer.id}])
  {
    hide LegalRun, After;
    var save := Api(Save(peer.id, (_: Peer) => Some(peer), Stamp("", now)));
    NoSteps(s);
    Snoc(s, [], save);
    run := [] + [save];
    Snoc(s, run, DeleteExpired(n, {peer.id}));
    run := run + [DeleteExpired(n, {peer.id})];
    assert After(s, run).nodes[n].expired == [{peer.id}];
    Snoc(s, run, save);
    run := run + [save];
  }

  lemma NoSteps(s: State)
    ensures LegalRun(s, []) && After(s, []) == s
  {
  }

  lemma FilterOne(w: PhysicalPeer, now: Time)
    requires IsActiveAt(w, now)
    ensures FilterActivePeers([w], now) == [w]
  {
    assert [w][..0] == [];
  }
}
