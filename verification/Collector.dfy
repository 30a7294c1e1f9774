/** The statistics collector object of internal/app/wireguard/statistics.go in handshake mode. Its
    methods run against the repository object; a cycle over one interface that nothing interrupts is
    a run of the cluster steps. */
module Collector {
  import opened Options
  import opened Domain
  import opened PeerStore
  import opened SqlRepository
  import opened Cluster

  /** What is published as a peer state change: whether the attached status says connected, and the
      peer as it was read at the start of the update. */
  datatype StateEvent = StateEvent(connected: bool, peer: Peer)

  /** The event for an active peer: one that is connected before or after the write gets one. */
  function Published(db: Db, node: NodeId, w: PhysicalPeer, isNewConnection: bool, now: Time): Option<StateEvent> {
    if w.id !in db.peers || (isNewConnection && node == "") then None
    else
      var was := StatusOrFresh(db, w.id, now).connected;
      var recent := w.lastHandshake.Some? && w.lastHandshake.value >= now - 2 * MINUTE;
      var connected := if isNewConnection then recent else was;
      if connected || was then Some(StateEvent(connected && !was, db.peers[w.id])) else None
  }

  /** The row holds what the kernel reports, the upload of the peer being what the node received. A claim
      starts a session; a refresh keeps the session, and leaves a row of another node pingable as it was. */
  predicate IsMeasured(was: PeerStatus, row: PeerStatus, node: NodeId, w: PhysicalPeer, claimed: bool, now: Time) {
    && row.received == w.bytesUpload && row.transmitted == w.bytesDownload
    && row.lastHandshake == w.lastHandshake && row.endpoint == w.endpoint && row.updatedAt == now
    && row.sessionStart == (if claimed then w.lastHandshake else was.sessionStart) && row.lastPing == was.lastPing
    && row.pingable == (!claimed && was.connected && was.owner != "" && was.owner != node && was.pingable)
  }

  lemma WriteMeasures(db: Db, node: NodeId, w: PhysicalPeer, claimed: bool, now: Time)
    requires w.id in db.peers && (claimed ==> node != "")
    ensures var d := Apply(db, if claimed then Claim(w.id, node, ClaimCallback(w, now), now)
                               else Update(node, w.id, RefreshCallback(w, now), now));
            w.id in d.statuses && IsMeasured(StatusOrFresh(db, w.id, now), d.statuses[w.id], node, w, claimed, now)
  {
    var s := StatusOrFresh(db, w.id, now);
    if claimed {
      ClaimRow(db, node, w, now);
      hide Apply, ClaimCallback, StatusOrFresh;
    } else {
      RefreshRow(db, node, w, now);
      hide Apply, RefreshCallback, StatusOrFresh;
    }
  }

  lemma ClaimRow(db: Db, node: NodeId, w: PhysicalPeer, now: Time)
    requires w.id in db.peers && node != ""
    ensures var s := StatusOrFresh(db, w.id, now).(owner := node, updatedAt := now);
            var u := Measured(s, w, now).(sessionStart := w.lastHandshake).CalcConnected(now);
            Apply(db, Claim(w.id, node, ClaimCallback(w, now), now)) ==
            db.(statuses := db.statuses[w.id := u.(owner := node)])
  {
    hide Measured, StatusOrFresh;
  }

  lemma RefreshRow(db: Db, node: NodeId, w: PhysicalPeer, now: Time)
    requires w.id in db.peers
    ensures var s := StatusOrFresh(db, w.id, now);
            Apply(db, Update(node, w.id, RefreshCallback(w, now), now)) ==
            db.(statuses := db.statuses[w.id := Settle(node, s, Measured(s, w, now))])
  {
    hide Measured, StatusOrFresh, Settle;
  }

  /** A disconnected row has no handshake; the counters of the session end with it. A row of another node
      stays connected there. */
  predicate IsDisconnected(was: PeerStatus, row: PeerStatus, node: NodeId, now: Time) {
    && row.lastHandshake == None && row.updatedAt == now
    && row.received == (if was.connected || was.pingable then 0 else was.received)
    && row.transmitted == (if was.connected || was.pingable then 0 else was.transmitted)
    && row.sessionStart == was.sessionStart && row.endpoint == was.endpoint && row.lastPing == was.lastPing
    && (if was.connected && was.owner != "" && was.owner != node
        then row.connected && row.pingable == was.pingable && row.owner == was.owner
        else !row.connected && !row.pingable && row.owner == "")
  }

  lemma DisconnectMeasures(db: Db, node: NodeId, id: PeerId, now: Time)
    requires id in db.peers
    ensures var d := Apply(db, Update(node, id, DisconnectCallback(now), now));
            id in d.statuses && IsDisconnected(StatusOrFresh(db, id, now), d.statuses[id], node, now)
  {
  }

  class StatisticsCollector {
    const repo: SqlRepo
    var activeConnectedPeers: map<IfaceId, set<PeerId>>

    constructor (repo: SqlRepo)
      ensures this.repo == repo && activeConnectedPeers == map[]
    {
      this.repo := repo;
      activeConnectedPeers := map[];
    }

    /** Claims or refreshes the status row. An event goes out when the connection state changed or the
        peer is connected; only a change attaches a status that can say so. */
    method UpdatePeerFromWireGuard(w: PhysicalPeer, isNewConnection: bool, now: Time)
      returns (event: Option<StateEvent>)
      modifies repo
      ensures repo.peers == old(repo.peers) && repo.addresses == old(repo.addresses)
      ensures w.id !in old(repo.peers) ==> repo.State() == old(repo.State())
      ensures w.id in old(repo.peers) ==>
                repo.State() == Apply(old(repo.State()), if isNewConnection
                  then Claim(w.id, repo.clusterNodeId, ClaimCallback(w, now), now)
                  else Update(repo.clusterNodeId, w.id, RefreshCallback(w, now), now))
      ensures w.id in old(repo.peers) && (isNewConnection ==> repo.clusterNodeId != "") ==>
                && w.id in repo.statuses
                && IsMeasured(StatusOrFresh(old(repo.State()), w.id, now), repo.statuses[w.id], repo.clusterNodeId, w,
                              isNewConnection, now)
      ensures event == Published(old(repo.State()), repo.clusterNodeId, w, isNewConnection, now)
    {
      if w.id !in repo.peers {
        return None;
      }
      hide Apply, IsMeasured;
      var dbPeer := repo.peers[w.id];
      var row := StatusOrFresh(repo.State(), w.id, now);
      var last := if isNewConnection then ClaimCallback(w, now)(row).value else RefreshCallback(w, now)(row).value;
      var stateChanged, newConnected := false, false;
      if row.connected != last.connected {
        stateChanged, newConnected := true, last.connected;
      }
      var ok := WriteStatus(w, isNewConnection, now);
      if !ok {
        return None;
      }
      if stateChanged || last.connected {
        return Some(StateEvent(newConnected, dbPeer));
      }
      return None;
    }

    /** The transaction of the collector for a stored peer; only a claim without a node name fails. */
    method WriteStatus(w: PhysicalPeer, isNewConnection: bool, now: Time) returns (ok: bool)
      requires w.id in repo.peers
      modifies repo
      ensures ok <==> (isNewConnection ==> repo.clusterNodeId != "")
      ensures repo.peers == old(repo.peers) && repo.addresses == old(repo.addresses)
      ensures repo.State() == Apply(old(repo.State()), if isNewConnection
                then Claim(w.id, repo.clusterNodeId, ClaimCallback(w, now), now)
                else Update(repo.clusterNodeId, w.id, RefreshCallback(w, now), now))
      ensures ok ==>
                && w.id in repo.statuses
                && IsMeasured(StatusOrFresh(old(repo.State()), w.id, now), repo.statuses[w.id], repo.clusterNodeId, w,
                              isNewConnection, now)
    {
      if isNewConnection ==> repo.clusterNodeId != "" {
        WriteMeasures(repo.State(), repo.clusterNodeId, w, isNewConnection, now);
      }
      hide IsMeasured;
      if isNewConnection {
        ok := repo.ClaimPeerStatus(w.id, repo.clusterNodeId, ClaimCallback(w, now), now, _ => Fine);
      } else {
        ok := repo.UpdatePeerStatus(w.id, RefreshCallback(w, now), now, _ => Fine);
      }
    }

    method MarkPeerDisconnected(id: PeerId, now: Time)
      modifies repo
      ensures repo.State() ==
                if id in old(repo.peers)
                then Apply(old(repo.State()), Update(repo.clusterNodeId, id, DisconnectCallback(now), now))
                else old(repo.State())
      ensures id in old(repo.peers) ==>
                && id in repo.statuses
                && IsDisconnected(StatusOrFresh(old(repo.State()), id, now), repo.statuses[id], repo.clusterNodeId, now)
    {
      if id !in repo.peers {
        return;
      }
      DisconnectMeasures(repo.State(), repo.clusterNodeId, id, now);
      var ok := repo.UpdatePeerStatus(id, DisconnectCallback(now), now, _ => Fine);
    }

    /** The state this object stands for inside a cluster state. */
    ghost predicate Matches(s: State, phase: Phase)
      reads this, repo
    {
      && s.db == repo.State() && repo.clusterNodeId in s.nodes
      && s.nodes[repo.clusterNodeId].cache == activeConnectedPeers && s.nodes[repo.clusterNodeId].phase == phase
    }

    /** The update loop of a cycle; run grows by the steps it takes. */
    method UpdateActive(iface: IfaceId, activePeers: seq<PhysicalPeer>, clock: PeerId -> Time, ghost s: State,
                        ghost run: seq<Action>)
      returns (current: set<PeerId>, ghost run': seq<Action>)
      requires iface in activeConnectedPeers
      requires LegalRun(s, run) && Matches(After(s, run), Updating(iface, activePeers, {}, false))
      modifies repo
      ensures LegalRun(s, run') && Matches(After(s, run'), Updating(iface, [], current, false))
      ensures forall p :: p in current <==> exists w <- activePeers :: w.id == p
    {
      hide LegalRun, After, Apply;
      ghost var n := repo.clusterNodeId;
      run' := run;
      current := {};
      for i := 0 to |activePeers|
        invariant LegalRun(s, run')
        invariant Matches(After(s, run'), Updating(iface, activePeers[i..], current, false))
        invariant current == set w | w in activePeers[..i] :: w.id
      {
        var w := activePeers[i];
        assert activePeers[i..][1..] == activePeers[i + 1..] && activePeers[i..][0] == w;
        assert activePeers[..i + 1] == activePeers[..i] + [w];
        current := current + {w.id};
        var isNewConnection := w.id !in activeConnectedPeers[iface];
        Snoc(s, run', FetchActive(n));
        run' := run' + [FetchActive(n)];
        if w.id in repo.peers {
          Snoc(s, run', WriteActive(n, clock(w.id)));
          run' := run' + [WriteActive(n, clock(w.id))];
        }
        var event := UpdatePeerFromWireGuard(w, isNewConnection, clock(w.id));
      }
      assert activePeers[..|activePeers|] == activePeers;
    }

    /** The age-out loop of a cycle: every cached peer that is not active any more is disconnected
        and leaves the cache. */
    method AgeOut(iface: IfaceId, current: set<PeerId>, clock: PeerId -> Time, ghost s: State, ghost run: seq<Action>)
      returns (ghost run': seq<Action>)
      requires iface in activeConnectedPeers
      requires LegalRun(s, run) && Matches(After(s, run), Aging(iface, current, None))
      modifies this`activeConnectedPeers, repo
      ensures LegalRun(s, run') && Matches(After(s, run'), Aging(iface, current, None))
      ensures iface in activeConnectedPeers && activeConnectedPeers[iface] <= current
    {
      hide LegalRun, After, Apply;
      ghost var n := repo.clusterNodeId;
      run' := run;
      var leaving := activeConnectedPeers[iface] - current;
      while leaving != {}
        invariant LegalRun(s, run') && iface in activeConnectedPeers
        invariant Matches(After(s, run'), Aging(iface, current, None))
        invariant activeConnectedPeers[iface] <= current + leaving
        invariant leaving <= activeConnectedPeers[iface] && leaving !! current
      {
        var p :| p in leaving;
        Snoc(s, run', FetchLeaving(n, p));
        run' := run' + [FetchLeaving(n, p)];
        if p in repo.peers {
          Snoc(s, run', Disconnect(n, clock(p)));
          run' := run' + [Disconnect(n, clock(p))];
        }
        MarkPeerDisconnected(p, clock(p));
        activeConnectedPeers := activeConnectedPeers[iface := activeConnectedPeers[iface] - {p}];
        leaving := leaving - {p};
      }
    }

    /** One collector cycle over one interface: refresh the active peers, disconnect the ones that
        aged out, replace the cache. The filter reads the clock once, each transaction reads it again. */
    method CollectInterface(iface: IfaceId, wgPeers: seq<PhysicalPeer>, now: Time, clock: PeerId -> Time,
                            ghost s: State)
      returns (ghost run: seq<Action>)
      requires Matches(s, Idle)
      modifies this`activeConnectedPeers, repo
      ensures LegalRun(s, run) && Matches(After(s, run), Idle)
      ensures iface in activeConnectedPeers
      ensures forall p :: p in activeConnectedPeers[iface] <==> exists w <- wgPeers :: w.id == p && IsActiveAt(w, now)
    {
      hide LegalRun, After, Apply, FilterActivePeers, Next, Enabled;
      ghost var n := repo.clusterNodeId;
      if iface !in activeConnectedPeers {
        activeConnectedPeers := activeConnectedPeers[iface := {}];
      }
      var activePeers := FilterActivePeers(wgPeers, now);
      CycleStarts(s, n, iface, wgPeers, now);
      run := [StartInterface(n, iface, wgPeers, now)];
      var current;
      current, run := UpdateActive(iface, activePeers, clock, s, run);
      UpdatesEnd(s, run, n);
      run := run + [EndUpdates(n)];
      run := AgeOut(iface, current, clock, s, run);
      CycleEnds(s, run, n);
      run := run + [EndInterface(n)];
      activeConnectedPeers := activeConnectedPeers[iface := current];
    }

    /** The removal event: the listed peers leave the cache of every interface. */
    method HandlePeersExpiredRemovedLocal(expired: set<PeerId>)
      modifies this`activeConnectedPeers
      ensures activeConnectedPeers == map i | i in old(activeConnectedPeers) :: old(activeConnectedPeers)[i] - expired
      ensures activeConnectedPeers == Node(old(activeConnectedPeers), Idle, []).UncacheAll(expired).cache
    {
      var todo := activeConnectedPeers.Keys;
      while todo != {}
        invariant todo <= activeConnectedPeers.Keys == old(activeConnectedPeers).Keys
        invariant forall i <- activeConnectedPeers ::
                    activeConnectedPeers[i] == if i in todo then old(activeConnectedPeers)[i]
                                               else old(activeConnectedPeers)[i] - expired
      {
        var i :| i in todo;
        todo := todo - {i};
        activeConnectedPeers := activeConnectedPeers[i := activeConnectedPeers[i] - expired];
      }
    }
  }

  // ---------- the steps of a cycle outside its two loops ----------

  lemma CycleStarts(s: State, n: NodeId, iface: IfaceId, wgPeers: seq<PhysicalPeer>, now: Time)
    requires n in s.nodes && s.nodes[n].phase.Idle?
    ensures var run, nd := [StartInterface(n, iface, wgPeers, now)], s.nodes[n];
            && LegalRun(s, run) && After(s, run).db == s.db && n in After(s, run).nodes
            && After(s, run).nodes[n] == nd.(cache := nd.cache[iface := nd.Cached(iface)],
                                             phase := Updating(iface, FilterActivePeers(wgPeers, now), {}, false))
  {
    hide LegalRun, After, FilterActivePeers;
    NoSteps(s);
    Snoc(s, [], StartInterface(n, iface, wgPeers, now));
    assert [] + [StartInterface(n, iface, wgPeers, now)] == [StartInterface(n, iface, wgPeers, now)];
  }

  lemma UpdatesEnd(s: State, run: seq<Action>, n: NodeId)
    requires LegalRun(s, run)
    requires var t := After(s, run); n in t.nodes && t.nodes[n].phase.Updating? && t.nodes[n].phase.todo == []
    ensures var t, more := After(s, run), run + [EndUpdates(n)];
            && LegalRun(s, more) && After(s, more).db == t.db && n in After(s, more).nodes
            && var ph := t.nodes[n].phase;
               After(s, more).nodes[n] == t.nodes[n].(phase := Aging(ph.iface, ph.current, None))
  {
    hide LegalRun, After;
    Snoc(s, run, EndUpdates(n));
  }

  lemma CycleEnds(s: State, run: seq<Action>, n: NodeId)
    requires LegalRun(s, run)
    requires var t := After(s, run);
             && n in t.nodes && t.nodes[n].phase.Aging? && t.nodes[n].phase.leaving.None?
             && t.nodes[n].Cached(t.nodes[n].phase.iface) <= t.nodes[n].phase.current
    ensures var t, more := After(s, run), run + [EndInterface(n)];
            && LegalRun(s, more) && After(s, more).db == t.db && n in After(s, more).nodes
            && var nd := t.nodes[n];
               After(s, more).nodes[n] == nd.(cache := nd.cache[nd.phase.iface := nd.phase.current], phase := Idle)
  {
    hide LegalRun, After;
    Snoc(s, run, EndInterface(n));
  }
}
