/** The administrator's peer operations (internal/app/wireguard/wireguard_peers.go) and the handler of
    a remote node (wireguard.go), each run undisturbed, against the steps of module Convergence. */
module PeerManager {
  import opened Options
  import opened Domain
  import opened Cidrs
  import opened Device
  import opened Convergence
  import Collector
  import Expiry

  /** The handler of a node for one identifier: read the row, then write the device. An identifier
      that is no key fails on the device without effect. */
  method HandlePeerSyncedLocalEvent(local: LocalController, rows: map<PeerId, Peer>, id: PeerId)
    requires id in rows ==> rows[id].id == id
    requires forall x <- local.device :: local.env.isKey(x)
    modifies local
    ensures var node := Convergence.Node(multiset{}, multiset{}, Holding(id, Row(rows, id)), old(local.device));
            local.device == Written(node, local.env)
    ensures Matches(local.device, rows, id, false, local.env) <==>
            id in rows && !rows[id].IsDisabled() ==> local.env.isKey(id)
    ensures id in rows && !rows[id].IsDisabled() && local.env.isKey(id) && OwnKey(rows[id], local.env) ==>
              Matches(local.device, rows, id, true, local.env)
    ensures id in rows && !rows[id].IsDisabled() && local.env.isKey(id) && rows[id].config.publicKey == id ==>
              id in local.device &&
              forall c :: c in local.device[id].allowed <==>
                          exists n: Cidr :: n.Valid() && IsGranted(rows[id], n, local.env) && c == n.NetworkAddr()
  {
    if id !in rows {
      var _ := local.DeletePeer(id);
    } else {
      SavedKeys(local.device, rows[id], local.env, id);
      if local.env.isKey(id) && OwnKey(rows[id], local.env) {
        SavedSelf(local.device, rows[id], true, local.env);
      }
      hide Saved, IsGranted;
      var _ := local.SavePeer(rows[id]);
    }
  }

  // ---------- what an update does ----------

  /** The row is saved under its public key; under a new key the old row goes first, whether or not the
      save then succeeds. A taken key, or a missing row, is an error without effect. */
  function UpdatedRows(rows: map<PeerId, Peer>, peer: Peer, saves: bool): map<PeerId, Peer> {
    var key := peer.config.publicKey;
    if peer.id !in rows || (key != peer.id && key in rows) then rows
    else
      var rest := if key == peer.id then rows else rows - {peer.id};
      if saves then rest[key := peer.(id := key)] else rest
  }

  function UpdatedEvents(rows: map<PeerId, Peer>, events: multiset<Event>, peer: Peer, saves: bool): multiset<Event> {
    var key := peer.config.publicKey;
    if peer.id !in rows || (key != peer.id && key in rows) then events
    else
      var first := if key == peer.id then events else events + multiset{Event(peer.id, Deleted)};
      if saves && HasMeaningfulChanges(rows[peer.id], peer.(id := key)) then first + multiset{Event(key, Updated)}
      else first
  }

  function UpdateSteps(rows: map<PeerId, Peer>, peer: Peer, saves: bool): seq<Action> {
    var key := peer.config.publicKey;
    if peer.id !in rows || (key != peer.id && key in rows) then []
    else
      (if key == peer.id then [] else [Delete(peer.id)]) +
      if saves then [Update(rows[peer.id], peer.(id := key))] else []
  }

  /** The update gives the peer a new identifier although its row changes in nothing that is compared:
      the row had that public key all along. */
  predicate ReidentifiesSilently(rows: map<PeerId, Peer>, peer: Peer, saves: bool) {
    && saves && peer.id in rows && peer.config.publicKey != peer.id && peer.config.publicKey !in rows
    && !HasMeaningfulChanges(rows[peer.id], peer.(id := peer.config.publicKey))
  }

  class Manager {
    var rows: map<PeerId, Peer>
    var unpublished: multiset<Event>
    const env: Env

    constructor (env: Env)
      ensures rows == map[] && unpublished == multiset{} && this.env == env
    {
      this.env := env;
      rows, unpublished := map[], multiset{};
    }

    /** What the other nodes see of this one. */
    function View(): World
      reads this
    {
      World(rows, unpublished, [])
    }

    method CreatePeer(p: Peer, saveOk: bool) returns (ok: bool)
      modifies this
      ensures ok == (p.id !in old(rows) && p.id != "" && env.isKey(p.id) && saveOk)
      ensures if ok then Takes(old(View()), [Create(p)], View(), env) else View() == old(View())
      ensures ok ==> rows == old(rows)[p.id := p] && unpublished == old(unpublished) + multiset{Event(p.id, Created)}
    {
      if p.id in rows {
        return false;
      }
      if p.id == "" {
        return false;
      }
      if !env.isKey(p.id) || !saveOk {
        return false;
      }
      rows := rows[p.id := p];
      unpublished := unpublished + multiset{Event(p.id, Created)};
      return true;
    }

    method DeletePeer(id: PeerId) returns (ok: bool)
      modifies this
      ensures ok == (id in old(rows) && env.isKey(id))
      ensures if ok then Takes(old(View()), [Delete(id)], View(), env) else View() == old(View())
      ensures ok ==> rows == old(rows) - {id} && unpublished == old(unpublished) + multiset{Event(id, Deleted)}
    {
      if id !in rows {
        return false;
      }
      if !env.isKey(id) {
        return false;
      }
      rows := rows - {id};
      unpublished := unpublished + multiset{Event(id, Deleted)};
      return true;
    }

    /** Updates a row. A new public key means a new identifier: the old peer is deleted, the new one
        saved. The other nodes miss nothing, except exactly when the peer is re-identified silently. */
    method UpdatePeer(peer: Peer, saveOk: bool) returns (ok: bool, ghost run: seq<Action>)
      requires forall id <- rows :: rows[id].id == id && Storable(rows[id], env)
      modifies this
      ensures var saves := saveOk && env.isKey(peer.config.publicKey);
              && rows == UpdatedRows(old(rows), peer, saves)
              && unpublished == UpdatedEvents(old(rows), old(unpublished), peer, saves)
              && run == UpdateSteps(old(rows), peer, saves)
              && (LegalRun(old(View()), run, env) <==> !ReidentifiesSilently(old(rows), peer, saves))
      ensures Takes(old(View()), run, View(), env)
      ensures ok <==> run != [] && run[|run| - 1].Update?
    {
      hide Takes, Next, Enabled, LegalRun, HasMeaningfulChanges;
      ghost var saves := saveOk && env.isKey(peer.config.publicKey);
      run := UpdateSteps(rows, peer, saves);
      StepsTaken(View(), peer, saves, env);
      if peer.id !in rows {
        return false, run;
      }
      var existing := rows[peer.id];
      var p := peer;
      if existing.id != p.config.publicKey {
        p := p.(id := p.config.publicKey);
        if p.id in rows {
          return false, run;
        }
        var _ := DeletePeer(existing.id);
      }
      if !env.isKey(p.id) || !saveOk {
        return false, run;
      }
      rows := rows[p.id := p];
      if HasMeaningfulChanges(existing, p) {
        unpublished := unpublished + multiset{Event(p.id, Updated)};
      }
      return true, run;
    }

    /** A peer state event renews the expiry by an update with the event's own copy of the peer. When
        that copy is what is stored, the other nodes are told nothing, but for a row with another public
        key, which they are told is deleted. */
    method HandlePeerStateChangeEvent(cfg: Expiry.TtlConfig, e: Collector.StateEvent, now: Time, saveOk: bool)
      requires forall id <- rows :: rows[id].id == id && Storable(rows[id], env)
      modifies this
      ensures e.peer.ttlLocked || !cfg.deleteExpired || cfg.ttl.None? ==>
                rows == old(rows) && unpublished == old(unpublished)
      ensures var renewed := Expiry.RenewedPeer(cfg, e, now);
              && rows == (if renewed.None? then old(rows)
                          else UpdatedRows(old(rows), renewed.value, saveOk && env.isKey(e.peer.config.publicKey)))
              && (e.peer.id in old(rows) && old(rows)[e.peer.id] == e.peer ==>
                    unpublished == if renewed.None? || e.peer.config.publicKey in old(rows) then old(unpublished)
                                   else old(unpublished) + multiset{Event(e.peer.id, Deleted)})
    {
      var expiryTime: Time;
      if !cfg.deleteExpired {
        return;
      }
      if cfg.ttl.None? {
        return;
      }
      if e.peer.ttlLocked {
        return;
      }
      if !e.connected && e.peer.expiresAt.Some? && e.peer.expiresAt.value > now + HOUR {
        return;
      }
      expiryTime := now + cfg.ttl.value;
      var updatedPeer := e.peer.(expiresAt := Some(expiryTime));
      SilentUpdates(e.peer, updatedPeer);
      SilentUpdates(e.peer, updatedPeer.(id := updatedPeer.config.publicKey));
      var ok, run := UpdatePeer(updatedPeer, saveOk);
    }
  }

  // ---------- runs of one operation ----------

  /** The steps of run are enabled and lead from one world to the other. */
  ghost predicate Takes(w: World, run: seq<Action>, v: World, env: Env)
    decreases |run|
  {
    if run == [] then w == v else Enabled(w, run[0], env) && Takes(Next(w, run[0], env), run[1..], v, env)
  }

  /** A legal run takes its steps. */
  lemma {:induction false} LegalTakes(w: World, run: seq<Action>, env: Env)
    requires LegalRun(w, run, env)
    ensures Takes(w, run, After(w, run, env), env)
    decreases |run|
  {
    if run != [] {
      LegalTakes(Next(w, run[0], env), run[1..], env);
    }
  }
  lemma OneStep(w: World, a: Action, env: Env)
    requires Enabled(w, a, env)
    ensures Takes(w, [a], Next(w, a, env), env) && (LegalRun(w, [a], env) <==> Faithful(w, a, env))
  {
    hide Next, Enabled, Faithful;
    assert [a][1..] == [];
    assert Takes(Next(w, a, env), [], Next(w, a, env), env);
    assert LegalRun(Next(w, a, env), [], env);
  }

  lemma TwoSteps(w: World, a: Action, b: Action, env: Env)
    requires Enabled(w, a, env) && Enabled(Next(w, a, env), b, env)
    ensures Takes(w, [a, b], Next(Next(w, a, env), b, env), env)
    ensures LegalRun(w, [a, b], env) <==> Faithful(w, a, env) && Faithful(Next(w, a, env), b, env)
  {
    hide Next, Enabled, Faithful;
    assert [a, b][1..] == [b];
    OneStep(Next(w, a, env), b, env);
  }

  /** The steps lead to the rows and events of the update, and are legal unless it re-identifies the peer
      silently. */
  lemma StepsTaken(w: World, peer: Peer, saves: bool, env: Env)
    requires saves ==> env.isKey(peer.config.publicKey)
    requires forall id <- w.rows :: w.rows[id].id == id
    ensures var rows, events := UpdatedRows(w.rows, peer, saves), UpdatedEvents(w.rows, w.unpublished, peer, saves);
            Takes(w, UpdateSteps(w.rows, peer, saves), World(rows, events, w.nodes), env)
    ensures LegalRun(w, UpdateSteps(w.rows, peer, saves), env) <==> !ReidentifiesSilently(w.rows, peer, saves)
  {
    hide Takes, LegalRun, HasMeaningfulChanges;
    var key := peer.config.publicKey;
    var run, p := UpdateSteps(w.rows, peer, saves), peer.(id := key);
    if run == [] {
      assert Takes(w, [], w, env) && LegalRun(w, [], env) by { NoStep(w, env); }
    } else if key == peer.id {
      var a := Update(w.rows[key], p);
      assert run == [a];
      OneStep(w, a, env);
      UpdateIsFaithful(w, w.rows[key], p, env);
    } else if !saves {
      assert run == [Delete(peer.id)];
      OneStep(w, Delete(peer.id), env);
    } else {
      assert run == [Delete(peer.id), Update(w.rows[peer.id], p)];
      TwoSteps(w, Delete(peer.id), Update(w.rows[peer.id], p), env);
    }
  }

  lemma NoStep(w: World, env: Env)
    ensures Takes(w, [], w, env) && LegalRun(w, [], env)
  {
  }

  /** An update that compares with the row it overwrites is announced or projects to the same thing. */
  lemma UpdateIsFaithful(w: World, existing: Peer, p: Peer, env: Env)
    requires p.id in w.rows && w.rows[p.id] == existing
    ensures Faithful(w, Update(existing, p), env)
  {
    SilentUpdates(existing, p);
  }

  /** Only a row stored with another public key than its identifier is ever re-identified silently. */
  lemma SilentReidentification(rows: map<PeerId, Peer>, peer: Peer, saves: bool)
    requires ReidentifiesSilently(rows, peer, saves)
    ensures rows[peer.id].config.publicKey == peer.config.publicKey != peer.id
  {
  }
}
