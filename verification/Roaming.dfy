/** When a peer is shown connected, and the peer that roams away and back within two minutes. */
module Roaming {
  import opened Options
  import opened Domain
  import opened PeerStore
  import opened Cluster

  predicate Online(db: Db, p: PeerId) {
    p in db.statuses && db.statuses[p].connected
  }

  /** An active peer is shown connected after its collector's write if and only if the collector had not
      cached it, and so claims it, or its row was connected already. */
  lemma ShownConnected(s: State, a: Action)
    requires Inv(s) && Enabled(s, a) && a.WriteActive?
    requires var w := s.nodes[a.node].phase.todo[0]; w.id in s.db.peers && IsActiveAt(w, a.now)
    ensures var nd := s.nodes[a.node];
            var w := nd.phase.todo[0];
            Online(Next(s, a).db, w.id) <==> w.id !in nd.Cached(nd.phase.iface) || Online(s.db, w.id)
  {
    hide Apply, ClaimCallback, RefreshCallback;
    var w := s.nodes[a.node].phase.todo[0];
    ClaimEffect(s.db, a.node, w, a.now);
    RefreshEffect(s.db, a.node, w, a.now);
  }

  /** The write of a collector for a peer it has not cached. */
  predicate Claims(s: State, a: Action, p: PeerId)
    requires Enabled(s, a)
  {
    && a.WriteActive?
    && var nd := s.nodes[a.node]; nd.phase.todo[0].id == p && p !in nd.Cached(nd.phase.iface)
  }

  /** No other step brings a peer online: the step is the write of a collector that had not cached it. */
  lemma OnlyClaimsConnect(s: State, a: Action, p: PeerId)
    requires Enabled(s, a) && !Online(s.db, p) && Online(Next(s, a).db, p)
    ensures Claims(s, a, p)
  {
    if a.WriteActive? {
      ConnectedRowsHaveSources(s.db, WriteTx(a.node, s.nodes[a.node], s.nodes[a.node].phase.todo[0], a.now));
    }
  }

  /** No step of the run claims the peer. */
  predicate Unclaimed(s: State, run: seq<Action>, p: PeerId)
    requires LegalRun(s, run)
    decreases |run|
  {
    run == [] || (Unclaimed(s, run[..|run| - 1], p) && !Claims(After(s, run[..|run| - 1]), run[|run| - 1], p))
  }

  /** From any state, whatever any number of nodes, the API and the cleanup do on any interfaces: an
      offline peer that no collector claims stays offline, however often it is seen active. */
  lemma {:induction false} StaysOffline(s: State, run: seq<Action>, p: PeerId)
    requires LegalRun(s, run) && !Online(s.db, p) && Unclaimed(s, run, p)
    ensures !Online(After(s, run).db, p)
    decreases |run|
  {
    if run != [] {
      hide Claims, Enabled, Next;
      var t, last := After(s, run[..|run| - 1]), run[|run| - 1];
      StaysOffline(s, run[..|run| - 1], p);
      if Online(After(s, run).db, p) {
        OnlyClaimsConnect(t, last, p);
      }
    }
  }

  // ---------- a claim that fails ----------

  /** A claim whose transaction fails for good, or is refused for an empty node name: the peer has been
      noted as active, the tables stay as they are and the collector goes on. */
  function ClaimDropped(s: State, a: Action): State
    requires Enabled(s, a) && a.WriteActive?
  {
    var ph := s.nodes[a.node].phase;
    s.(nodes := s.nodes[a.node := s.nodes[a.node].(phase := ph.(todo := ph.todo[1..], fetched := false))])
  }

  /** The node then knows the peer as if it had claimed it, so that later writes only refresh, and
      until somebody claims it an offline peer stays offline. */
  lemma DroppedClaimStaysOffline(s: State, a: Action, run: seq<Action>, p: PeerId)
    requires Inv(s) && Enabled(s, a) && Claims(s, a, p) && !Online(s.db, p)
    requires LegalRun(ClaimDropped(s, a), run) && Unclaimed(ClaimDropped(s, a), run, p)
    ensures Inv(ClaimDropped(s, a)) && p in ClaimDropped(s, a).nodes[a.node].phase.current
    ensures !Online(After(ClaimDropped(s, a), run).db, p)
  {
    var s' := ClaimDropped(s, a);
    forall q | s.nodes[a.node].Knows(q) ensures s'.nodes[a.node].Knows(q) {
    }
    NoGhostsFrom(s, s', "", "");
    StaysOffline(s', run, p);
  }

  // ---------- away and back ----------

  function Blank(pending: seq<set<PeerId>>): Node {
    Node(map[], Idle, pending)
  }

  /** A node between cycles that caches one peer, or none any more, for its interface. */
  function Caching(ids: set<PeerId>): Node {
    Node(map["wg0" := ids], Idle, [])
  }

  function CycleSteps(n: NodeId, w: PhysicalPeer, now: Time): seq<Action> {
    [StartInterface(n, "wg0", [w], now), FetchActive(n), WriteActive(n, now), EndUpdates(n), EndInterface(n)]
  }

  /** A node that has updated its one active peer. */
  function Updated(p: PeerId): Node {
    Node(map["wg0" := {p}], Updating("wg0", [], {p}, false), [])
  }

  /** A collector cycle over an interface on which only w is active, and cached. */
  lemma RefreshCycle(s: State, run: seq<Action>, n: NodeId, w: PhysicalPeer, now: Time)
    requires LegalRun(s, run) && IsActiveAt(w, now)
    requires var t := After(s, run); n in t.nodes && t.nodes[n] == Caching({w.id}) && w.id in t.db.peers
    ensures LegalRun(s, run + CycleSteps(n, w, now))
    ensures After(s, run + CycleSteps(n, w, now)).db ==
            Apply(After(s, run).db, Update(n, w.id, RefreshCallback(w, now), now))
    ensures After(s, run + CycleSteps(n, w, now)).nodes == After(s, run).nodes
  {
    hide LegalRun, After, Apply, RefreshCallback;
    var t := After(s, run);
    var run' := RefreshUpdates(s, run, n, w, now);
    Snoc(s, run', EndUpdates(n));
    run' := run' + [EndUpdates(n)];
    Snoc(s, run', EndInterface(n));
    run' := run' + [EndInterface(n)];
    assert After(s, run').nodes[n] == Caching({w.id});
    assert After(s, run').nodes == t.nodes;
    assert run' == run + CycleSteps(n, w, now);
  }

  lemma RefreshUpdates(s: State, run: seq<Action>, n: NodeId, w: PhysicalPeer, now: Time) returns (run': seq<Action>)
    requires LegalRun(s, run) && IsActiveAt(w, now)
    requires var t := After(s, run); n in t.nodes && t.nodes[n] == Caching({w.id}) && w.id in t.db.peers
    ensures LegalRun(s, run') && run' == run + [StartInterface(n, "wg0", [w], now), FetchActive(n), WriteActive(n, now)]
    ensures After(s, run').db == Apply(After(s, run).db, Update(n, w.id, RefreshCallback(w, now), now))
    ensures After(s, run').nodes == After(s, run).nodes[n := Updated(w.id)]
  {
    hide LegalRun, After, Apply, RefreshCallback;
    FilterOne(w, now);
    Snoc(s, run, StartInterface(n, "wg0", [w], now));
    run' := run + [StartInterface(n, "wg0", [w], now)];
    assert After(s, run').nodes[n] == Node(map["wg0" := {w.id}], Updating("wg0", [w], {}, false), []);
    Snoc(s, run', FetchActive(n));
    run' := run' + [FetchActive(n)];
    assert {} + {w.id} == {w.id} && [w][1..] == [];
    assert After(s, run').nodes[n] == Node(map["wg0" := {w.id}], Updating("wg0", [w], {w.id}, true), []);
    Snoc(s, run', WriteActive(n, now));
    run' := run' + [WriteActive(n, now)];
    assert After(s, run').nodes[n] == Updated(w.id);
  }

  /** A collector cycle over an interface on which the only cached peer, w, has become inactive. */
  lemma AgingCycle(s: State, run: seq<Action>, n: NodeId, w: PhysicalPeer, now: Time) returns (run': seq<Action>)
    requires LegalRun(s, run) && !IsActiveAt(w, now)
    requires var t := After(s, run); n in t.nodes && t.nodes[n] == Caching({w.id}) && w.id in t.db.peers
    ensures LegalRun(s, run')
    ensures After(s, run').db == Apply(After(s, run).db, Update(n, w.id, DisconnectCallback(now), now))
    ensures After(s, run').nodes == After(s, run).nodes[n := Caching({})]
  {
    hide LegalRun, After, Apply, DisconnectCallback;
    var t := After(s, run);
    run' := AgingOpens(s, run, n, w, now);
    Snoc(s, run', Disconnect(n, now));
    run' := run' + [Disconnect(n, now)];
    assert {w.id} - {w.id} == {};
    assert After(s, run').nodes[n] == Node(map["wg0" := {}], Aging("wg0", {}, None), []);
    Snoc(s, run', EndInterface(n));
    run' := run' + [EndInterface(n)];
    assert After(s, run').nodes[n] == Caching({});
    assert After(s, run').nodes == t.nodes[n := Caching({})];
  }

  lemma AgingOpens(s: State, run: seq<Action>, n: NodeId, w: PhysicalPeer, now: Time) returns (run': seq<Action>)
    requires LegalRun(s, run) && !IsActiveAt(w, now)
    requires var t := After(s, run); n in t.nodes && t.nodes[n] == Caching({w.id}) && w.id in t.db.peers
    ensures LegalRun(s, run') && After(s, run').db == After(s, run).db
    ensures After(s, run').nodes ==
            After(s, run).nodes[n := Node(map["wg0" := {w.id}], Aging("wg0", {}, Some(w.id)), [])]
  {
    hide LegalRun, After, Apply;
    assert FilterActivePeers([w], now) == [] by {
      assert [w][..0] == [];
    }
    Snoc(s, run, StartInterface(n, "wg0", [w], now));
    run' := run + [StartInterface(n, "wg0", [w], now)];
    assert After(s, run').nodes[n] == Node(map["wg0" := {w.id}], Updating("wg0", [], {}, false), []);
    Snoc(s, run', EndUpdates(n));
    run' := run' + [EndUpdates(n)];
    Snoc(s, run', FetchLeaving(n, w.id));
    run' := run' + [FetchLeaving(n, w.id)];
    assert After(s, run').nodes[n] == Node(map["wg0" := {w.id}], Aging("wg0", {}, Some(w.id)), []);
  }

  lemma ClaimEffect(db: Db, n: NodeId, w: PhysicalPeer, now: Time)
    requires n != "" && w.id in db.peers && IsActiveAt(w, now)
    ensures var d := Apply(db, Claim(w.id, n, ClaimCallback(w, now), now));
            d.peers == db.peers && ConnectedAt(d, w.id, n)
  {
    ClaimConnects(db, n, w, now);
    hide ClaimCallback, ConnectedAt;
  }

  lemma RefreshEffect(db: Db, n: NodeId, w: PhysicalPeer, now: Time)
    requires w.id in db.peers
    ensures var d := Apply(db, Update(n, w.id, RefreshCallback(w, now), now));
            && d.peers == db.peers && (Online(d, w.id) <==> Online(db, w.id))
            && (Online(db, w.id) ==> d.statuses[w.id].owner == db.statuses[w.id].owner)
  {
  }

  lemma DisconnectEffect(db: Db, n: NodeId, p: PeerId, now: Time)
    requires p in db.peers && ConnectedAt(db, p, n)
    ensures var d := Apply(db, Update(n, p, DisconnectCallback(now), now)); d.peers == db.peers && !Online(d, p)
  {
  }

  /** What a peer looks like that node n watches as active while its row says offline. */
  predicate WatchedOffline(s: State, n: NodeId, p: PeerId) {
    n in s.nodes && s.nodes[n] == Caching({p}) && p in s.db.peers && !Online(s.db, p)
  }

  /** A peer roams from a to b and back within two minutes: a still caches it and only refreshes, b ages
      it out, and the row says offline although the peer is active at a. */
  lemma RoamBackGoesOffline(a: NodeId, b: NodeId, peer: Peer, w: PhysicalPeer, t: Time)
    returns (run: seq<Action>, back: PhysicalPeer)
    requires a != "" && b != "" && a != b && peer.id == w.id
    ensures var s := State(Db(map[], {}, map[]), map[a := Blank([]), b := Blank([])]);
            Init(s) && LegalRun(s, run) && WatchedOffline(After(s, run), a, w.id)
    ensures back.id == w.id && IsActiveAt(back, t + 151 * SECOND)
  {
    hide LegalRun, After, Apply;
    var s := State(Db(map[], {}, map[]), map[a := Blank([]), b := Blank([])]);
    var away := w.(lastHandshake := Some(t + 30 * SECOND));
    back := w.(lastHandshake := Some(t + 60 * SECOND));
    run := Saved(s, peer, t);
    run := ClaimCycle(s, run, a, w.(lastHandshake := Some(t)), t);
    assert After(s, run).nodes[b] == Blank([]);
    run := ClaimCycle(s, run, b, away, t + 30 * SECOND);
    assert After(s, run).nodes[a] == Caching({w.id});
    RefreshEffect(After(s, run).db, a, back, t + 60 * SECOND);
    RefreshCycle(s, run, a, back, t + 60 * SECOND);
    run := run + CycleSteps(a, back, t + 60 * SECOND);
    DisconnectEffect(After(s, run).db, b, w.id, t + 151 * SECOND);
    run := AgingCycle(s, run, b, away, t + 151 * SECOND);
  }

  /** A node that caches nothing sees its first handshake and claims the row. */
  lemma ClaimCycle(s: State, run: seq<Action>, n: NodeId, w: PhysicalPeer, now: Time) returns (run': seq<Action>)
    requires n != "" && LegalRun(s, run) && w.id in After(s, run).db.peers && w.lastHandshake == Some(now)
    requires n in After(s, run).nodes && After(s, run).nodes[n] == Blank([])
    ensures LegalRun(s, run') && w.id in After(s, run').db.peers && ConnectedAt(After(s, run').db, w.id, n)
    ensures After(s, run').nodes == After(s, run).nodes[n := Caching({w.id})]
  {
    hide LegalRun, After, Apply;
    ClaimEffect(After(s, run).db, n, w, now);
    run' := FirstCycle(s, run, n, w, now, []);
  }

  lemma Saved(s: State, peer: Peer, t: Time) returns (run: seq<Action>)
    ensures LegalRun(s, run) && peer.id in After(s, run).db.peers && After(s, run).nodes == s.nodes
  {
    var save := Api(Save(peer.id, (_: Peer) => Some(peer), Stamp("", t)));
    NoSteps(s);
    Snoc(s, [], save);
    run := [] + [save];
  }

  /** Such cycles can go on for ever: the node keeps seeing the peer active, keeps it cached and so never
      claims it. */
  lemma {:induction false} WatchedForever(s: State, run: seq<Action>, n: NodeId, visits: seq<(PhysicalPeer, Time)>,
                                          p: PeerId)
    requires LegalRun(s, run) && WatchedOffline(After(s, run), n, p)
    requires forall v <- visits :: v.0.id == p && IsActiveAt(v.0, v.1)
    ensures LegalRun(s, run + Cycles(n, visits)) && WatchedOffline(After(s, run + Cycles(n, visits)), n, p)
    ensures After(s, run + Cycles(n, visits)).db.peers == After(s, run).db.peers
  {
    if visits == [] {
      assert run + Cycles(n, visits) == run;
    } else {
      hide LegalRun, After, Apply, RefreshCallback, CycleSteps, IsActiveAt, Cycles;
      var k := |visits| - 1;
      WatchedForever(s, run, n, visits[..k], p);
      var before := run + Cycles(n, visits[..k]);
      var (w, now) := visits[k];
      assert visits[k] in visits;
      RefreshEffect(After(s, before).db, n, w, now);
      RefreshCycle(s, before, n, w, now);
      hide Online;
      OneMoreCycle(run, n, visits);
    }
  }

  lemma OneMoreCycle(run: seq<Action>, n: NodeId, visits: seq<(PhysicalPeer, Time)>)
    requires visits != []
    ensures var v := visits[|visits| - 1];
            run + Cycles(n, visits[..|visits| - 1]) + CycleSteps(n, v.0, v.1) == run + Cycles(n, visits)
  {
    hide CycleSteps;
  }

  /** The steps of consecutive cycles of a node over an interface on which one cached peer is active. */
  function Cycles(n: NodeId, visits: seq<(PhysicalPeer, Time)>): seq<Action> {
    if visits == [] then []
    else Cycles(n, visits[..|visits| - 1]) + CycleSteps(n, visits[|visits| - 1].0, visits[|visits| - 1].1)
  }
}
