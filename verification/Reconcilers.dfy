/** The three reconcilers agree: what the event handler, the restore phase and the full sync of
    module Device leave on the device, as functions of the starting table and the rows. */
module Reconcilers {
  import opened Cidrs
  import opened Domain
  import opened Device

  function EventTable(t: Table, ps: seq<Peer>, env: Env): Table {
    SaveAll(Only(t, Ids(ps)), ps, env)
  }

  function RestoreTable(t: Table, ps: seq<Peer>, env: Env): Table {
    Only(SaveAll(t, ps, env), Ids(ps))
  }

  /** order lists the rows that NeedsSave selects. */
  function FullSyncTable(t: Table, ps: seq<Peer>, order: seq<Peer>, env: Env): Table {
    SaveAll(Only(t, EnabledIds(ps)), order, env)
  }

  predicate DisjointNetworks(ps: seq<Peer>, env: Env) {
    forall i, j :: 0 <= i < j < |ps| && !ps[i].IsDisabled() && !ps[j].IsDisabled() ==>
      Projection(ps[i], env) !! Projection(ps[j], env)
  }

  // ---------- a list of saves in closed form ----------

  /** What the enabled rows after row i claim. */
  function ClaimsAfter(ps: seq<Peer>, i: nat, env: Env): set<Cidr>
    requires i < |ps|
  {
    Claims(ps[i + 1..], env)
  }

  lemma NoneAfter(ps: seq<Peer>, env: Env)
    requires ps != []
    ensures ClaimsAfter(ps, |ps| - 1, env) == {}
  {
  }

  lemma OneMoreAfter(ps: seq<Peer>, i: nat, env: Env)
    requires i < |ps| - 1
    ensures ClaimsAfter(ps, i, env) ==
            ClaimsAfter(ps[..|ps| - 1], i, env) +
            if ps[|ps| - 1].IsDisabled() then {} else Projection(ps[|ps| - 1], env)
  {
    assert ps[i + 1..][..|ps| - i - 2] == ps[..|ps| - 1][i + 1..];
  }

  /** A peer that is not saved keeps its settings and loses the networks given to saved ones. */
  lemma {:induction false} Unsaved(t: Table, ps: seq<Peer>, env: Env, id: PeerId)
    requires AllKeys(ps, env) && OwnKeys(ps, env) && id !in Ids(ps)
    ensures id in SaveAll(t, ps, env) <==> id in t
    ensures id in t ==> SaveAll(t, ps, env)[id] == t[id].(allowed := t[id].allowed - Claims(ps, env))
  {
    if ps != [] {
      hide Saved, Projection, EntryAfter;
      var front, last := SaveAll(t, ps[..|ps| - 1], env), ps[|ps| - 1];
      Unsaved(t, ps[..|ps| - 1], env, id);
      if last.IsDisabled() {
        SavedNone(front, last, env);
      } else {
        SavedUnderOwnKey(front, last, env);
      }
    }
  }

  /** Whatever the keys, a saved row is on the device exactly when it is enabled. */
  lemma {:induction false} SavedPresence(t: Table, ps: seq<Peer>, env: Env, i: nat)
    requires DbRows(ps) && AllKeys(ps, env) && i < |ps|
    ensures ps[i].id in SaveAll(t, ps, env) <==> !ps[i].IsDisabled()
  {
    hide Saved;
    var front := ps[..|ps| - 1];
    SavedKeys(SaveAll(t, front, env), ps[|ps| - 1], env, ps[i].id);
    if i < |ps| - 1 {
      SavedPresence(t, front, env, i);
      assert ps[i].id != ps[|ps| - 1].id;
    }
  }

  lemma AllowedDoNotMatter(before: Entry, lost: set<Cidr>, p: Peer, env: Env)
    ensures EntryAfter(before.(allowed := before.allowed - lost), p, env) == EntryAfter(before, p, env)
    ensures EntryAfter(before, p, env).allowed == Projection(p, env)
  {
  }

  lemma SavedTwice(before: Entry, lost: set<Cidr>, p: Peer, env: Env)
    ensures EntryAfter(EntryAfter(before, p, env).(allowed := Projection(p, env) - lost), p, env) ==
            EntryAfter(before, p, env)
  {
    hide Projection;
  }

  /** A saved row is on the device exactly when enabled, with its own settings over the old ones
      and its networks except those a later row claims. */
  lemma {:induction false} SavedRow(t: Table, ps: seq<Peer>, env: Env, i: nat)
    requires DbRows(ps) && AllKeys(ps, env) && OwnKeys(ps, env) && i < |ps|
    ensures ps[i].id in SaveAll(t, ps, env) <==> !ps[i].IsDisabled()
    ensures !ps[i].IsDisabled() ==>
              SaveAll(t, ps, env)[ps[i].id] ==
              EntryAfter(Before(t, ps[i].id), ps[i], env).(allowed := Projection(ps[i], env) - ClaimsAfter(ps, i, env))
  {
    hide Saved, Projection, EntryAfter, Claims;
    var front, last, id := SaveAll(t, ps[..|ps| - 1], env), ps[|ps| - 1], ps[i].id;
    SavedNone(front, last, env);
    if !last.IsDisabled() {
      SavedUnderOwnKey(front, last, env);
    }
    if i == |ps| - 1 {
      Unsaved(t, ps[..|ps| - 1], env, id);
      AllowedDoNotMatter(Before(t, id), Claims(ps[..|ps| - 1], env), ps[i], env);
      assert {} - Claims(ps[..|ps| - 1], env) == {};
      NoneAfter(ps, env);
    } else {
      SavedRow(t, ps[..|ps| - 1], env, i);
      OneMoreAfter(ps, i, env);
      assert last.id != id;
    }
  }

  lemma {:induction false} ClaimsMembers(ps: seq<Peer>, env: Env, c: Cidr)
    ensures c in Claims(ps, env) <==> exists p <- ps :: !p.IsDisabled() && c in Projection(p, env)
  {
    if ps != [] {
      ClaimsMembers(ps[..|ps| - 1], env, c);
      assert forall p :: p in ps <==> p in ps[..|ps| - 1] || p == ps[|ps| - 1];
    }
  }

  /** After saving a list, every enabled row has exactly its networks if and only if no network is
      claimed by two of them. */
  lemma NetworksExact(t: Table, ps: seq<Peer>, env: Env)
    requires DbRows(ps) && AllKeys(ps, env) && OwnKeys(ps, env)
    ensures forall p <- ps :: p.id in SaveAll(t, ps, env) <==> !p.IsDisabled()
    ensures DisjointNetworks(ps, env) <==>
            forall p <- ps :: !p.IsDisabled() ==> SaveAll(t, ps, env)[p.id].allowed == Projection(p, env)
  {
    forall i | 0 <= i < |ps|
      ensures ps[i].id in SaveAll(t, ps, env) <==> !ps[i].IsDisabled()
      ensures !ps[i].IsDisabled() ==>
                SaveAll(t, ps, env)[ps[i].id].allowed == Projection(ps[i], env) - ClaimsAfter(ps, i, env)
    {
      SavedRow(t, ps, env, i);
    }
    forall i, j | 0 <= i < j < |ps| && !ps[j].IsDisabled()
      ensures Projection(ps[j], env) <= ClaimsAfter(ps, i, env)
    {
      assert ps[i + 1..][j - i - 1] == ps[j];
      forall c | c in Projection(ps[j], env) ensures c in ClaimsAfter(ps, i, env) {
        ClaimsMembers(ps[i + 1..], env, c);
      }
    }
    if DisjointNetworks(ps, env) {
      forall i, c | 0 <= i < |ps| && !ps[i].IsDisabled() && c in Projection(ps[i], env)
        ensures c !in ClaimsAfter(ps, i, env)
      {
        ClaimsMembers(ps[i + 1..], env, c);
      }
    }
  }

  // ---------- agreement ----------

  /** Handler and restore phase leave the same table, entry by entry, whatever was there before. */
  lemma EventEqualsRestore(t: Table, ps: seq<Peer>, env: Env)
    requires DbRows(ps) && AllKeys(ps, env) && OwnKeys(ps, env)
    ensures EventTable(t, ps, env) == RestoreTable(t, ps, env)
  {
    var a, b := EventTable(t, ps, env), RestoreTable(t, ps, env);
    forall id
      ensures id in a <==> id in b
      ensures id in a ==> a[id] == b[id]
    {
      if id in Ids(ps) {
        var i :| 0 <= i < |ps| && ps[i].id == id;
        SavedRow(Only(t, Ids(ps)), ps, env, i);
        SavedRow(t, ps, env, i);
      } else {
        Unsaved(Only(t, Ids(ps)), ps, env, id);
      }
    }
  }

  /** All three leave exactly the enabled rows on the device. */
  lemma SamePeers(t: Table, ps: seq<Peer>, order: seq<Peer>, env: Env)
    requires DbRows(ps) && AllKeys(ps, env)
    requires ListsExactly(order, set p <- ps | NeedsSave(t, p, env))
    ensures EventTable(t, ps, env).Keys == EnabledIds(ps)
    ensures RestoreTable(t, ps, env).Keys == EnabledIds(ps)
    ensures FullSyncTable(t, ps, order, env).Keys == EnabledIds(ps)
  {
    hide SaveAll;
    forall id
      ensures id in EventTable(t, ps, env) <==> id in EnabledIds(ps)
      ensures id in RestoreTable(t, ps, env) <==> id in EnabledIds(ps)
      ensures id in FullSyncTable(t, ps, order, env) <==> id in EnabledIds(ps)
    {
      SavedKey(Only(t, Ids(ps)), ps, env, id);
      SavedKey(t, ps, env, id);
      FullSyncKey(t, ps, order, env, id);
    }
  }

  lemma SavedKey(t: Table, ps: seq<Peer>, env: Env, id: PeerId)
    requires DbRows(ps) && AllKeys(ps, env)
    ensures id in SaveAll(t, ps, env) <==> if id in Ids(ps) then id in EnabledIds(ps) else id in t
  {
    hide SaveAll;
    if id in Ids(ps) {
      var i :| 0 <= i < |ps| && ps[i].id == id;
      SavedPresence(t, ps, env, i);
    } else {
      NotYetSaved(t, ps, id, env);
    }
  }

  lemma FullSyncKey(t: Table, ps: seq<Peer>, order: seq<Peer>, env: Env, id: PeerId)
    requires DbRows(ps) && AllKeys(ps, env)
    requires ListsExactly(order, set p <- ps | NeedsSave(t, p, env))
    ensures id in FullSyncTable(t, ps, order, env) <==> id in EnabledIds(ps)
  {
    hide SaveAll;
    SavedKey(Only(t, EnabledIds(ps)), order, env, id);
    if id in EnabledIds(ps) && id !in Ids(order) {
      var p :| p in ps && p.id == id && !p.IsDisabled();
      assert !NeedsSave(t, p, env);
    }
  }

  /** Running the handler again, or restoring after it, changes nothing. */
  lemma Idempotent(t: Table, ps: seq<Peer>, env: Env)
    requires DbRows(ps) && AllKeys(ps, env) && OwnKeys(ps, env)
    ensures EventTable(EventTable(t, ps, env), ps, env) == EventTable(t, ps, env)
  {
    hide EntryAfter, SaveAll;
    var a := EventTable(t, ps, env);
    var b := EventTable(a, ps, env);
    forall id
      ensures id in a <==> id in b
      ensures id in a ==> a[id] == b[id]
    {
      if id in Ids(ps) {
        var i :| 0 <= i < |ps| && ps[i].id == id;
        SavedRow(Only(t, Ids(ps)), ps, env, i);
        SavedRow(Only(a, Ids(ps)), ps, env, i);
        if !ps[i].IsDisabled() {
          SavedTwice(Before(t, id), ClaimsAfter(ps, i, env), ps[i], env);
        }
      } else {
        Unsaved(Only(t, Ids(ps)), ps, env, id);
        Unsaved(Only(a, Ids(ps)), ps, env, id);
      }
    }
  }

  /** The order in which the database lists the rows does not matter when no network is claimed twice. */
  lemma OrderFree(t: Table, ps: seq<Peer>, qs: seq<Peer>, env: Env)
    requires DbRows(ps) && DbRows(qs) && AllKeys(ps, env) && OwnKeys(ps, env) && DisjointNetworks(ps, env)
    requires forall p :: p in ps <==> p in qs
    ensures EventTable(t, ps, env) == EventTable(t, qs, env)
  {
    var a, b := EventTable(t, ps, env), EventTable(t, qs, env);
    var kept := Only(t, Ids(ps));
    assert Ids(ps) == Ids(qs);
    SubsetDisjoint(ps, qs, env);
    NetworksExact(kept, ps, env);
    NetworksExact(kept, qs, env);
    forall id
      ensures id in a <==> id in b
      ensures id in a ==> a[id] == b[id]
    {
      if id in Ids(ps) {
        var i :| 0 <= i < |ps| && ps[i].id == id;
        assert ps[i] in qs;
        var j :| 0 <= j < |qs| && qs[j] == ps[i];
        SavedRow(kept, ps, env, i);
        SavedRow(kept, qs, env, j);
      } else {
        Unsaved(kept, ps, env, id);
        Unsaved(kept, qs, env, id);
      }
    }
  }

  /** The full sync, too, gives every enabled row its networks exactly when each row its comparison
      skips already holds them, apart from networks that the saved rows take back. */
  lemma FullSyncNetworks(t: Table, ps: seq<Peer>, order: seq<Peer>, env: Env)
    requires DbRows(ps) && AllKeys(ps, env) && OwnKeys(ps, env) && DisjointNetworks(ps, env)
    requires ListsExactly(order, set p <- ps | NeedsSave(t, p, env))
    ensures (forall p <- ps :: !p.IsDisabled() ==>
               && p.id in FullSyncTable(t, ps, order, env)
               && FullSyncTable(t, ps, order, env)[p.id].allowed == Projection(p, env)) <==>
            (forall p <- ps :: !p.IsDisabled() && !NeedsSave(t, p, env) ==>
               t[p.id].allowed - Claims(order, env) == Projection(p, env))
  {
    var kept := Only(t, EnabledIds(ps));
    var r := FullSyncTable(t, ps, order, env);
    SubsetDisjoint(ps, order, env);
    NetworksExact(kept, order, env);
    forall p | p in ps && !p.IsDisabled() && !NeedsSave(t, p, env)
      ensures p.id in r && r[p.id].allowed == t[p.id].allowed - Claims(order, env)
    {
      assert p.id !in Ids(order);
      Unsaved(kept, order, env, p.id);
    }
  }

  lemma SubsetDisjoint(ps: seq<Peer>, qs: seq<Peer>, env: Env)
    requires DbRows(ps) && DbRows(qs) && DisjointNetworks(ps, env)
    requires forall p <- qs :: p in ps
    ensures DisjointNetworks(qs, env)
  {
    forall i, j | 0 <= i < j < |qs| && !qs[i].IsDisabled() && !qs[j].IsDisabled()
      ensures Projection(qs[i], env) !! Projection(qs[j], env)
    {
      assert qs[i] in ps && qs[j] in ps;
      var k, l :| 0 <= k < |ps| && ps[k] == qs[i] && 0 <= l < |ps| && ps[l] == qs[j];
      if k < l {
        assert Projection(ps[k], env) !! Projection(ps[l], env);
      } else if l < k {
        assert Projection(ps[l], env) !! Projection(ps[k], env);
      }
    }
  }

  /** The condition is not always met: the listing shows a row's allowed-IPs text, not its projection,
      so a peer that is to get its own address in forced mode keeps the default route instead. */
  lemma StaleNetworksSurvive(p: Peer, env: Env)
    requires env.force && env.isKey(p.id) && !p.IsDisabled() && p.config.publicKey == p.id
    requires p.config.kind == Client && p.extraAllowedIPs == "" && env.parse("") == []
    requires p.config.addresses == [Cidr(true, 10, 24)] && p.allowedIPs.value == env.render({Cidr(true, 0, 0)})
    requires p.presharedKey == "" && p.keepalive == ConfigOption(0, false)
    ensures var t := map[p.id := Entry({Cidr(true, 0, 0)}, "", p.endpoint.value, 0)];
            && !NeedsSave(t, p, env)
            && FullSyncTable(t, [p], [], env) == t
            && EventTable(t, [p], env) != t
  {
    var route := Cidr(true, 0, 0);
    var t := map[p.id := Entry({route}, "", p.endpoint.value, 0)];
    assert FullSyncTable(t, [p], [], env) == t;
    assert [p][..0] == [];
    SavedUnderOwnKey(t, p, env);
    assert Only(t, Ids([p])) == t;
    assert EventTable(t, [p], env)[p.id].allowed == Projection(p, env);
    assert AllowedIPsOf(p, env.force, env.parse) == [Cidr(true, 10, 32)];
    assert Projection(p, env) != {route} by {
      assert forall c <- Projection(p, env) :: c.len == 32;
    }
  }
}
