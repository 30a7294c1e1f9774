/** Collectors and expiry renewal together: writes of the collectors queue state events, the handler
    saves the event's copy of the peer with a new expiry, and every other step may come in between.
    The run of one peer's row refines the timed runs of module Expiry. */
module Renewal {
  import opened Options
  import opened Domain
  import opened PeerStore
  import opened SqlRepository
  import opened Cluster
  import opened Roaming
  import opened Collector
  import opened Expiry
  import PeerManager

  /** A peer as a collector read it, when `seen` events of the watched peer had been handled. */
  datatype Copy = Copy(peer: Peer, seen: nat, readAt: Time)

  datatype Queued = Queued(connected: bool, copy: Copy)

  /** copies: what each collector read last; log: the handled events of the watched peer. */
  datatype Joint = Joint(s: State, copies: map<NodeId, Copy>, queue: multiset<Queued>, log: seq<Handled>)

  datatype Step = Cluster(a: Action, now: Time) | Handle(q: Queued, stamp: Stamp)

  predicate CanTake(j: Joint, x: Step) {
    match x
    case Cluster(a, _) => Enabled(j.s, a)
    case Handle(q, _) => q in j.queue
  }

  /** UpdatePeer with a renewed copy: a row with its own key is saved over, any other is deleted and saved
      under its public key. The stamps of creation come from the stored row. */
  function Renew(s: State, renewed: Peer, stamp: Stamp): State {
    var key := renewed.config.publicKey;
    if renewed.id !in s.db.peers then s
    else if key == renewed.id then Next(s, Api(SaveOver(renewed, stamp)))
    else if key in s.db.peers then s
    else Next(Next(s, Api(Delete({renewed.id}))), Api(SaveOver(renewed.(id := key), stamp)))
  }

  function SaveOver(p: Peer, stamp: Stamp): Tx {
    Save(p.id, (r: Peer) => Some(p.(base := r.base)), stamp)
  }

  /** The copy a collector holds after a step. */
  function Copies(j: Joint, a: Action, now: Time): map<NodeId, Copy>
    requires Enabled(j.s, a)
  {
    if !a.FetchActive? then j.copies
    else
      var id := j.s.nodes[a.node].phase.todo[0].id;
      if id !in j.s.db.peers then j.copies else j.copies[a.node := Copy(j.s.db.peers[id], |j.log|, now)]
  }

  /** The event of a collector's write, with the copy it holds. */
  function EventOf(j: Joint, a: Action): Option<Queued>
    requires Enabled(j.s, a)
  {
    if !a.WriteActive? || a.node !in j.copies then None
    else
      var nd := j.s.nodes[a.node];
      var w := nd.phase.todo[0];
      match Published(j.s.db, a.node, w, w.id !in nd.Cached(nd.phase.iface), a.now)
      case None => None
      case Some(e) => Some(Queued(e.connected, j.copies[a.node]))
  }

  function Take(cfg: TtlConfig, j: Joint, x: Step, p: PeerId): Joint
    requires CanTake(j, x)
  {
    match x
    case Cluster(a, now) =>
      var e := EventOf(j, a);
      Joint(Next(j.s, a), Copies(j, a, now), if e.Some? then j.queue + multiset{e.value} else j.queue, j.log)
    case Handle(q, stamp) =>
      var renewed := RenewedPeer(cfg, StateEvent(q.connected, q.copy.peer), stamp.at);
      Joint(if renewed.Some? then Renew(j.s, renewed.value, stamp) else j.s, j.copies, j.queue - multiset{q},
            if q.copy.peer.id == p then j.log + [Handled(q.connected, q.copy.seen, q.copy.readAt, stamp.at)] else j.log)
  }

  // ---------- the watched row ----------

  /** No save or deletion of the watched row other than by a handled event. */
  ghost predicate Untouched(a: Action, p: PeerId) {
    match a
    case Api(Save(id, edit, _)) => id != p && forall r :: edit(r).Some? ==> edit(r).value.id != p
    case Api(Delete(ids)) => p !in ids
    case DeleteExpired(_, ids) => p !in ids
    case _ => true
  }

  ghost predicate StepUntouched(x: Step, p: PeerId) {
    x.Cluster? ==> Untouched(x.a, p)
  }

  /** Equal but for the stamps of creation and saving. */
  predicate Same(x: Peer, y: Peer) {
    x == y.(base := x.base)
  }

  predicate Ordered(log: seq<Handled>) {
    forall i :: 0 <= i < |log| ==> log[i].seen <= i
  }

  predicate TrueCopy(cfg: TtlConfig, p0: Peer, log: seq<Handled>, c: Copy)
    requires Ordered(log)
  {
    c.peer.id == p0.id ==> c.seen <= |log| && Same(c.peer, RowAfter(cfg, p0, log, c.seen))
  }

  /** The stored row, and every copy of it, is what Expiry.RowAfter says of the handled events. */
  predicate Inv(cfg: TtlConfig, p0: Peer, j: Joint) {
    && Ordered(j.log)
    && (forall id <- j.s.db.peers :: j.s.db.peers[id].id == id)
    && p0.id in j.s.db.peers && Same(j.s.db.peers[p0.id], RowAfter(cfg, p0, j.log, |j.log|))
    && (forall n <- j.copies :: TrueCopy(cfg, p0, j.log, j.copies[n]))
    && forall q <- j.queue :: TrueCopy(cfg, p0, j.log, q.copy)
  }

  // ---------- every step keeps it ----------

  /** What a step does to the peer table: the watched row stays, and rows stay under their identifiers. */
  predicate Keeps(before: map<PeerId, Peer>, after: map<PeerId, Peer>, p: PeerId) {
    && (p in before ==> p in after && after[p] == before[p])
    && ((forall id <- before :: before[id].id == id) ==> forall id <- after :: after[id].id == id)
  }

  lemma TxKeeps(db: Db, tx: Tx, p: PeerId)
    requires tx.Save? ==> tx.id != p && forall r :: tx.edit(r).Some? ==> tx.edit(r).value.id != p
    requires tx.Delete? ==> p !in tx.ids
    ensures Keeps(db.peers, Apply(db, tx).peers, p)
  {
  }

  lemma StepKeepsRow(s: State, a: Action, p: PeerId)
    requires Enabled(s, a) && Untouched(a, p)
    ensures Keeps(s.db.peers, Next(s, a).db.peers, p)
  {
    hide Apply, Keeps;
    assert Keeps(s.db.peers, s.db.peers, p) by { KeepsSame(s.db.peers, p); }
    match a
    case Api(tx) => TxKeeps(s.db, tx, p);
    case WriteActive(n, now) => TxKeeps(s.db, WriteTx(n, s.nodes[n], s.nodes[n].phase.todo[0], now), p);
    case Disconnect(n, now) =>
      TxKeeps(s.db, Update(n, s.nodes[n].phase.leaving.value, DisconnectCallback(now), now), p);
    case DeleteExpired(n, ids) => TxKeeps(s.db, Delete(ids), p); ApplyDelete(s.db, ids);
    case _ =>
  }

  lemma KeepsSame(rows: map<PeerId, Peer>, p: PeerId)
    ensures Keeps(rows, rows, p)
  {
  }

  lemma ApplyDelete(db: Db, ids: set<PeerId>)
    ensures Apply(db, Delete(ids)) == DeletePeers(db, ids)
  {
  }

  lemma ClusterKeepsInv(cfg: TtlConfig, p0: Peer, j: Joint, a: Action, now: Time)
    requires Inv(cfg, p0, j) && Enabled(j.s, a) && Untouched(a, p0.id)
    ensures Inv(cfg, p0, Take(cfg, j, Cluster(a, now), p0.id))
  {
    hide Next, Untouched, Published, RowAfter;
    StepKeepsRow(j.s, a, p0.id);
  }

  /** All versions of the row differ in the expiry only. */
  lemma {:induction false} RowShape(cfg: TtlConfig, p: Peer, log: seq<Handled>, k: nat)
    requires k <= |log| && Ordered(log)
    ensures RowAfter(cfg, p, log, k) == p.(expiresAt := RowAfter(cfg, p, log, k).expiresAt)
    decreases k
  {
    if k > 0 {
      RowShape(cfg, p, log, log[k - 1].seen);
      RowShape(cfg, p, log, k - 1);
    }
  }

  lemma {:induction false} RowPrefix(cfg: TtlConfig, p: Peer, log: seq<Handled>, h: Handled, k: nat)
    requires k <= |log| && Ordered(log) && h.seen <= |log|
    ensures Ordered(log + [h]) && RowAfter(cfg, p, log + [h], k) == RowAfter(cfg, p, log, k)
    decreases k
  {
    if k > 0 {
      hide AfterEvent;
      RowPrefix(cfg, p, log, h, log[k - 1].seen);
      RowPrefix(cfg, p, log, h, k - 1);
    }
  }

  /** A handled event of the watched peer: the row becomes what one more handled event makes of it. */
  lemma HandledRow(cfg: TtlConfig, p0: Peer, log: seq<Handled>, h: Handled, copy: Peer, row: Peer)
    requires Ordered(log) && h.seen <= |log|
    requires Same(copy, RowAfter(cfg, p0, log, h.seen)) && Same(row, RowAfter(cfg, p0, log, |log|))
    ensures Ordered(log + [h])
    ensures Same(AfterEvent(cfg, h, copy, row), RowAfter(cfg, p0, log + [h], |log| + 1))
  {
    RowPrefix(cfg, p0, log, h, h.seen);
    RowPrefix(cfg, p0, log, h, |log|);
    var c, r := RowAfter(cfg, p0, log, h.seen), RowAfter(cfg, p0, log, |log|);
    assert RowAfter(cfg, p0, log + [h], |log| + 1) == AfterEvent(cfg, h, c, r);
    hide RowAfter;
  }

  lemma CopyStaysTrue(cfg: TtlConfig, p0: Peer, log: seq<Handled>, h: Handled, c: Copy)
    requires Ordered(log) && h.seen <= |log| && TrueCopy(cfg, p0, log, c)
    ensures Ordered(log + [h]) && TrueCopy(cfg, p0, log + [h], c)
  {
    if c.peer.id == p0.id {
      RowPrefix(cfg, p0, log, h, c.seen);
    } else {
      RowPrefix(cfg, p0, log, h, 0);
    }
  }

  /** A renewal of another peer leaves the watched row alone, re-identified or not. */
  lemma RenewOther(s: State, renewed: Peer, stamp: Stamp, p: PeerId)
    requires renewed.id != p && p in s.db.peers
    ensures Keeps(s.db.peers, Renew(s, renewed, stamp).db.peers, p)
  {
    hide Apply, Keeps;
    var key := renewed.config.publicKey;
    KeepsSame(s.db.peers, p);
    if key == renewed.id {
      TxKeeps(s.db, SaveOver(renewed, stamp), p);
    } else if key !in s.db.peers {
      var mid := Apply(s.db, Delete({renewed.id}));
      TxKeeps(s.db, Delete({renewed.id}), p);
      TxKeeps(mid, SaveOver(renewed.(id := key), stamp), p);
      KeepsTwice(s.db.peers, mid.peers, Apply(mid, SaveOver(renewed.(id := key), stamp)).peers, p);
    }
  }

  lemma KeepsTwice(a: map<PeerId, Peer>, b: map<PeerId, Peer>, c: map<PeerId, Peer>, p: PeerId)
    requires Keeps(a, b, p) && Keeps(b, c, p)
    ensures Keeps(a, c, p)
  {
  }

  /** A renewal changes the rows as the update operation does, but for the stamps. */
  lemma RenewIsUpdate(s: State, renewed: Peer, stamp: Stamp)
    requires forall id <- s.db.peers :: s.db.peers[id].id == id
    ensures SameRows(Renew(s, renewed, stamp).db.peers, PeerManager.UpdatedRows(s.db.peers, renewed, true))
  {
    hide Apply;
    var key, rows := renewed.config.publicKey, s.db.peers;
    if renewed.id in rows && key == renewed.id {
      SaveOverRow(s.db, renewed, stamp);
    } else if renewed.id in rows && key !in rows {
      ReidentifiedRow(s.db, renewed, stamp);
    }
  }

  predicate SameRows(a: map<PeerId, Peer>, b: map<PeerId, Peer>) {
    a.Keys == b.Keys && forall id <- a :: Same(a[id], b[id])
  }

  lemma ReidentifiedRow(db: Db, renewed: Peer, stamp: Stamp)
    ensures var key := renewed.config.publicKey;
            var mid := Apply(db, Delete({renewed.id}));
            SameRows(Apply(mid, SaveOver(renewed.(id := key), stamp)).peers,
                     (db.peers - {renewed.id})[key := renewed.(id := key)])
  {
    var mid := Apply(db, Delete({renewed.id}));
    ApplyDelete(db, {renewed.id});
    SaveOverRow(mid, renewed.(id := renewed.config.publicKey), stamp);
    hide Apply;
  }

  lemma SaveOverRow(db: Db, p: Peer, stamp: Stamp)
    ensures var rows := Apply(db, SaveOver(p, stamp)).peers;
            && rows.Keys == db.peers.Keys + {p.id} && Same(rows[p.id], p)
            && forall id <- db.peers :: id != p.id ==> rows[id] == db.peers[id]
  {
  }

  /** A renewal of a row with its own key saves it. */
  lemma RenewOwn(s: State, renewed: Peer, stamp: Stamp)
    requires renewed.id in s.db.peers && renewed.config.publicKey == renewed.id
    ensures var rows := Renew(s, renewed, stamp).db.peers;
            && rows.Keys == s.db.peers.Keys && Same(rows[renewed.id], renewed)
            && forall id <- rows :: id != renewed.id ==> rows[id] == s.db.peers[id]
  {
  }

  /** Handling an event of the watched peer makes of its row what one more handled event makes of it. */
  lemma HandleOwn(cfg: TtlConfig, p0: Peer, j: Joint, q: Queued, stamp: Stamp)
    requires Inv(cfg, p0, j) && q in j.queue && p0.config.publicKey == p0.id && q.copy.peer.id == p0.id
    ensures var k := Take(cfg, j, Handle(q, stamp), p0.id);
            && Ordered(k.log) && k.s.db.peers.Keys == j.s.db.peers.Keys && k.s.db.peers[p0.id].id == p0.id
            && Same(k.s.db.peers[p0.id], RowAfter(cfg, p0, k.log, |k.log|))
            && forall id <- k.s.db.peers :: id != p0.id ==> k.s.db.peers[id] == j.s.db.peers[id]
  {
    hide Renew, RowAfter, AfterEvent;
    var h, row := Handled(q.connected, q.copy.seen, q.copy.readAt, stamp.at), j.s.db.peers[p0.id];
    var renewed := RenewedPeer(cfg, StateEvent(q.connected, q.copy.peer), stamp.at);
    RowShape(cfg, p0, j.log, q.copy.seen);
    HandledRow(cfg, p0, j.log, h, q.copy.peer, row);
    AfterEventIs(cfg, h, q.copy.peer, row);
    if renewed.Some? {
      RenewOwn(j.s, renewed.value, stamp);
    }
  }

  lemma HandleKeepsInv(cfg: TtlConfig, p0: Peer, j: Joint, q: Queued, stamp: Stamp)
    requires Inv(cfg, p0, j) && q in j.queue && p0.config.publicKey == p0.id
    ensures Inv(cfg, p0, Take(cfg, j, Handle(q, stamp), p0.id))
  {
    hide Renew, RowAfter, AfterEvent;
    var renewed := RenewedPeer(cfg, StateEvent(q.connected, q.copy.peer), stamp.at);
    var k := Take(cfg, j, Handle(q, stamp), p0.id);
    if q.copy.peer.id == p0.id {
      var h := Handled(q.connected, q.copy.seen, q.copy.readAt, stamp.at);
      HandleOwn(cfg, p0, j, q, stamp);
      hide Same;
      forall c: Copy | TrueCopy(cfg, p0, j.log, c) ensures TrueCopy(cfg, p0, j.log + [h], c) {
        CopyStaysTrue(cfg, p0, j.log, h, c);
      }
    } else if renewed.Some? {
      RenewOther(j.s, renewed.value, stamp, p0.id);
    }
  }

  lemma AfterEventIs(cfg: TtlConfig, h: Handled, copy: Peer, row: Peer)
    ensures var saved := RenewedPeer(cfg, StateEvent(h.connected, copy), h.at);
            AfterEvent(cfg, h, copy, row) == if saved.Some? then saved.value else row
  {
  }

  // ---------- runs ----------

  predicate LegalRun(cfg: TtlConfig, p: PeerId, j: Joint, run: seq<Step>)
    decreases |run|
  {
    run == [] || (CanTake(j, run[0]) && LegalRun(cfg, p, Take(cfg, j, run[0], p), run[1..]))
  }

  function After(cfg: TtlConfig, p: PeerId, j: Joint, run: seq<Step>): Joint
    requires LegalRun(cfg, p, j, run)
    decreases |run|
  {
    if run == [] then j else After(cfg, p, Take(cfg, j, run[0], p), run[1..])
  }

  /** Nothing of the watched peer has been read, queued or handled. */
  predicate Fresh(j: Joint, p: PeerId) {
    && j.log == [] && (forall id <- j.s.db.peers :: j.s.db.peers[id].id == id) && p in j.s.db.peers
    && (forall n <- j.copies :: j.copies[n].peer.id != p) && forall q <- j.queue :: q.copy.peer.id != p
  }

  lemma {:induction false} RunKeepsInv(cfg: TtlConfig, p0: Peer, j: Joint, run: seq<Step>)
    requires Inv(cfg, p0, j) && p0.config.publicKey == p0.id && LegalRun(cfg, p0.id, j, run)
    requires forall x <- run :: StepUntouched(x, p0.id)
    ensures Inv(cfg, p0, After(cfg, p0.id, j, run))
    decreases |run|
  {
    if run != [] {
      hide Inv, Take, CanTake, Untouched;
      assert run[0] in run;
      match run[0] {
        case Cluster(a, now) => assert Enabled(j.s, a) by { CanTakeIs(j, run[0]); } ClusterKeepsInv(cfg, p0, j, a, now);
        case Handle(q, stamp) => assert q in j.queue by { CanTakeIs(j, run[0]); } HandleKeepsInv(cfg, p0, j, q, stamp);
      }
      RunKeepsInv(cfg, p0, Take(cfg, j, run[0], p0.id), run[1..]);
    }
  }

  lemma CanTakeIs(j: Joint, x: Step)
    ensures CanTake(j, x) == match x case Cluster(a, _) => Enabled(j.s, a) case Handle(q, _) => q in j.queue
  {
  }

  /** Refinement: whatever the collectors, the API and the cleanup do to other peers and to any status, and
      however events are delayed and reordered, the stored row is what the timed model computes from the
      events handled so far. */
  lemma RowRefinesExpiry(cfg: TtlConfig, p: PeerId, j: Joint, run: seq<Step>)
    requires Fresh(j, p) && j.s.db.peers[p].config.publicKey == p && LegalRun(cfg, p, j, run)
    requires forall x <- run :: StepUntouched(x, p)
    ensures var t := After(cfg, p, j, run);
            && Ordered(t.log) && p in t.s.db.peers
            && Same(t.s.db.peers[p], RowAfter(cfg, j.s.db.peers[p], t.log, |t.log|))
  {
    RunKeepsInv(cfg, j.s.db.peers[p], j, run);
  }

  /** So, while its events are handled in time, no query for expired peers returns the peer. */
  lemma TimelyNotReturned(cfg: TtlConfig, p: PeerId, j: Joint, run: seq<Step>, age: Time, gap: Time, now: Time)
    requires Fresh(j, p) && j.s.db.peers[p].config.publicKey == p && LegalRun(cfg, p, j, run)
    requires forall x <- run :: StepUntouched(x, p)
    requires Covered(j.s.db.peers[p], After(cfg, p, j, run).log, age, gap, |After(cfg, p, j, run).log|, now)
    requires cfg.deleteExpired && cfg.ttl.Some? && age + gap <= cfg.ttl.value && gap <= HOUR + 1
    ensures p in After(cfg, p, j, run).s.db.peers && !IsExpired(After(cfg, p, j, run).s.db.peers[p], now)
  {
    RowRefinesExpiry(cfg, p, j, run);
    var log := After(cfg, p, j, run).log;
    NeverExpired(cfg, j.s.db.peers[p], log, age, gap, |log|, now);
  }

  /** A locked row keeps its expiry, and everything else but its stamps, through every such run. */
  lemma LockedRowStays(cfg: TtlConfig, p: PeerId, j: Joint, run: seq<Step>)
    requires Fresh(j, p) && j.s.db.peers[p].config.publicKey == p && LegalRun(cfg, p, j, run)
    requires forall x <- run :: StepUntouched(x, p)
    requires j.s.db.peers[p].ttlLocked || !cfg.deleteExpired || cfg.ttl.None?
    ensures p in After(cfg, p, j, run).s.db.peers && Same(After(cfg, p, j, run).s.db.peers[p], j.s.db.peers[p])
  {
    RowRefinesExpiry(cfg, p, j, run);
    var log := After(cfg, p, j, run).log;
    NeverRenewed(cfg, j.s.db.peers[p], log, |log|);
  }

  // ---------- time ----------

  function TimeOf(x: Step): Time {
    match x case Cluster(_, now) => now case Handle(_, stamp) => stamp.at
  }

  /** The clock never runs backwards. */
  predicate Rising(t: Time, run: seq<Step>)
    decreases |run|
  {
    run == [] || (t <= TimeOf(run[0]) && Rising(TimeOf(run[0]), run[1..]))
  }

  /** A copy that was read when seen events had been handled, no later than the next of them. */
  predicate ReadInTime(log: seq<Handled>, seen: nat, readAt: Time, t: Time) {
    readAt <= t && seen <= |log| && forall k :: seen <= k < |log| ==> readAt <= log[k].at
  }

  predicate LogRises(log: seq<Handled>, t: Time) {
    && (forall i :: 0 <= i < |log| ==> log[i].seen <= i && log[i].readAt <= log[i].at <= t)
    && (forall i :: 0 < i < |log| ==> log[i - 1].at <= log[i].at)
    && (forall i, k :: 0 <= i < |log| && log[i].seen <= k < i ==> log[i].readAt <= log[k].at)
  }

  predicate Timed(j: Joint, p: PeerId, t: Time) {
    && LogRises(j.log, t)
    && (forall n <- j.copies :: j.copies[n].peer.id == p ==> ReadInTime(j.log, j.copies[n].seen, j.copies[n].readAt, t))
    && (forall q <- j.queue :: q.copy.peer.id == p ==> ReadInTime(j.log, q.copy.seen, q.copy.readAt, t))
  }

  lemma LogGrows(log: seq<Handled>, h: Handled, t: Time)
    requires LogRises(log, t) && t <= h.at && ReadInTime(log, h.seen, h.readAt, t)
    ensures LogRises(log + [h], h.at)
    ensures forall seen: nat, readAt :: ReadInTime(log, seen, readAt, t) ==> ReadInTime(log + [h], seen, readAt, h.at)
  {
  }

  lemma StepKeepsTimed(cfg: TtlConfig, p: PeerId, j: Joint, x: Step, t: Time)
    requires Timed(j, p, t) && CanTake(j, x) && t <= TimeOf(x)
    ensures Timed(Take(cfg, j, x, p), p, TimeOf(x))
  {
    match x
    case Cluster(a, now) => ClusterKeepsTimed(cfg, p, j, a, now, t);
    case Handle(q, stamp) => HandleKeepsTimed(cfg, p, j, q, stamp, t);
  }

  lemma ClusterKeepsTimed(cfg: TtlConfig, p: PeerId, j: Joint, a: Action, now: Time, t: Time)
    requires Timed(j, p, t) && Enabled(j.s, a) && t <= now
    ensures Timed(Take(cfg, j, Cluster(a, now), p), p, now)
  {
    LogLater(j.log, t, now);
    ReadLater(j.log, t, now);
    hide Next, Published, LogRises, ReadInTime;
    var copies := Copies(j, a, now);
    forall n | n in copies && copies[n].peer.id == p ensures ReadInTime(j.log, copies[n].seen, copies[n].readAt, now) {
      assert (n in j.copies && copies[n] == j.copies[n]) || (copies[n].seen == |j.log| && copies[n].readAt == now);
    }
  }

  lemma HandleKeepsTimed(cfg: TtlConfig, p: PeerId, j: Joint, q: Queued, stamp: Stamp, t: Time)
    requires Timed(j, p, t) && q in j.queue && t <= stamp.at
    ensures Timed(Take(cfg, j, Handle(q, stamp), p), p, stamp.at)
  {
    hide Renew, RenewedPeer;
    if q.copy.peer.id == p {
      LogGrows(j.log, Handled(q.connected, q.copy.seen, q.copy.readAt, stamp.at), t);
    } else {
      LogLater(j.log, t, stamp.at);
      ReadLater(j.log, t, stamp.at);
    }
    hide LogRises, ReadInTime;
  }

  lemma ReadLater(log: seq<Handled>, t: Time, u: Time)
    requires t <= u
    ensures forall seen: nat, readAt :: ReadInTime(log, seen, readAt, t) ==> ReadInTime(log, seen, readAt, u)
    ensures ReadInTime(log, |log|, u, u)
  {
  }

  lemma LogLater(log: seq<Handled>, t: Time, u: Time)
    requires LogRises(log, t) && t <= u
    ensures LogRises(log, u)
  {
  }

  lemma {:induction false} RunKeepsTimed(cfg: TtlConfig, p: PeerId, j: Joint, run: seq<Step>, t: Time) returns (u: Time)
    requires Timed(j, p, t) && LegalRun(cfg, p, j, run) && Rising(t, run)
    ensures Timed(After(cfg, p, j, run), p, u)
    decreases |run|
  {
    if run == [] {
      return t;
    }
    hide Timed, Take, CanTake;
    StepKeepsTimed(cfg, p, j, run[0], t);
    u := RunKeepsTimed(cfg, p, Take(cfg, j, run[0], p), run[1..], TimeOf(run[0]));
  }

  /** With a clock that never runs backwards, handled events are timely if and only if each was handled at
      most age after its copy was read, and at most gap after the one before it. */
  lemma TimelyExactly(cfg: TtlConfig, p: PeerId, j: Joint, run: seq<Step>, t: Time, age: Time, gap: Time)
    requires Fresh(j, p) && LegalRun(cfg, p, j, run) && Rising(t, run)
    ensures var log := After(cfg, p, j, run).log;
            Timely(log, age, gap) <==>
              (forall i :: 0 <= i < |log| ==> log[i].at - log[i].readAt <= age) &&
              (forall i :: 0 < i < |log| ==> log[i].at - log[i - 1].at <= gap)
  {
    assert Timed(j, p, t);
    hide Fresh, LegalRun, After, Rising, Timely, LogRises, ReadInTime;
    var u := RunKeepsTimed(cfg, p, j, run, t);
    RisingIsTimely(After(cfg, p, j, run).log, u, age, gap);
  }

  lemma RisingIsTimely(log: seq<Handled>, t: Time, age: Time, gap: Time)
    requires LogRises(log, t)
    ensures Timely(log, age, gap) <==>
              (forall i :: 0 <= i < |log| ==> log[i].at - log[i].readAt <= age) &&
              (forall i :: 0 < i < |log| ==> log[i].at - log[i - 1].at <= gap)
  {
  }

  // ---------- the peer that stays offline ----------

  /** No step of the run claims the peer. */
  predicate NeverClaimed(cfg: TtlConfig, p: PeerId, j: Joint, run: seq<Step>)
    requires LegalRun(cfg, p, j, run)
    decreases |run|
  {
    run == [] ||
    (!(run[0].Cluster? && Claims(j.s, run[0].a, p)) && NeverClaimed(cfg, p, Take(cfg, j, run[0], p), run[1..]))
  }

  /** A collector about to write holds a copy of the peer it writes. */
  predicate CopiesMatch(j: Joint) {
    forall n <- j.s.nodes :: j.s.nodes[n].phase.Updating? && j.s.nodes[n].phase.fetched ==>
      n in j.copies && j.s.nodes[n].phase.todo != [] && j.copies[n].peer.id == j.s.nodes[n].phase.todo[0].id
  }

  /** The watched row is stored and offline, and no event of it waits. */
  predicate Forgotten(j: Joint, p: PeerId) {
    && p in j.s.db.peers && !Online(j.s.db, p) && (forall id <- j.s.db.peers :: j.s.db.peers[id].id == id)
    && CopiesMatch(j) && forall q <- j.queue :: q.copy.peer.id != p
  }

  /** Whoever writes the status of such a peer without claiming it publishes nothing. */
  lemma RefreshPublishesNothing(s: State, a: Action)
    requires Enabled(s, a) && a.WriteActive? && !Online(s.db, s.nodes[a.node].phase.todo[0].id)
    requires !Claims(s, a, s.nodes[a.node].phase.todo[0].id)
    ensures var nd := s.nodes[a.node];
            var w := nd.phase.todo[0];
            Published(s.db, a.node, w, w.id !in nd.Cached(nd.phase.iface), a.now) == None
  {
  }

  lemma MatchKept(cfg: TtlConfig, p: PeerId, j: Joint, a: Action, now: Time)
    requires CopiesMatch(j) && Enabled(j.s, a) && forall id <- j.s.db.peers :: j.s.db.peers[id].id == id
    ensures CopiesMatch(Take(cfg, j, Cluster(a, now), p))
  {
    hide Apply, Published, FilterActivePeers;
  }

  lemma ClusterKeepsForgotten(cfg: TtlConfig, p: PeerId, j: Joint, a: Action, now: Time)
    requires Forgotten(j, p) && Enabled(j.s, a) && Untouched(a, p) && !Claims(j.s, a, p)
    ensures var t := Take(cfg, j, Cluster(a, now), p);
            Forgotten(t, p) && t.s.db.peers[p] == j.s.db.peers[p] && t.log == j.log
  {
    MatchKept(cfg, p, j, a, now);
    StepKeepsRow(j.s, a, p);
    if Online(Next(j.s, a).db, p) {
      OnlyClaimsConnect(j.s, a, p);
    }
    if a.WriteActive? && j.s.nodes[a.node].phase.todo[0].id == p {
      RefreshPublishesNothing(j.s, a);
    }
    hide CopiesMatch, Claims, Online, Untouched, Published, Next;
    assert EventOf(j, a).Some? ==> EventOf(j, a).value.copy.peer.id != p by {
      EventNames(j, a);
    }
  }

  lemma EventNames(j: Joint, a: Action)
    requires CopiesMatch(j) && Enabled(j.s, a)
    ensures EventOf(j, a).Some? ==>
              a.WriteActive? && EventOf(j, a).value.copy.peer.id == j.s.nodes[a.node].phase.todo[0].id
  {
    hide Published;
  }

  lemma HandleKeepsForgotten(cfg: TtlConfig, p: PeerId, j: Joint, q: Queued, stamp: Stamp)
    requires Forgotten(j, p) && q in j.queue
    ensures var t := Take(cfg, j, Handle(q, stamp), p);
            Forgotten(t, p) && t.s.db.peers[p] == j.s.db.peers[p] && t.log == j.log
  {
    hide Renew, Online;
    var renewed := RenewedPeer(cfg, StateEvent(q.connected, q.copy.peer), stamp.at);
    if renewed.Some? {
      RenewOther(j.s, renewed.value, stamp, p);
      RenewStaysOffline(j.s, renewed.value, stamp, p);
    }
  }

  lemma RenewStaysOffline(s: State, renewed: Peer, stamp: Stamp, p: PeerId)
    requires !Online(s.db, p)
    ensures !Online(Renew(s, renewed, stamp).db, p) && Renew(s, renewed, stamp).nodes == s.nodes
  {
    hide Apply, Online;
    var key := renewed.config.publicKey;
    var save, del := Api(SaveOver(renewed, stamp)), Api(Delete({renewed.id}));
    if Online(Next(s, save).db, p) {
      OnlyClaimsConnect(s, save, p);
    }
    if Online(Next(s, del).db, p) {
      OnlyClaimsConnect(s, del, p);
    }
    var again := Api(SaveOver(renewed.(id := key), stamp));
    if Online(Next(Next(s, del), again).db, p) {
      OnlyClaimsConnect(Next(s, del), again, p);
    }
  }

  /** An offline peer that no collector claims is never renewed, in any run of collectors, handlers, API
      and cleanup on other rows: the query for expired peers returns it exactly when its expiry, as it was
      at the start, is past, however often collectors see it active. */
  lemma {:induction false} OfflineNeverRenewed(cfg: TtlConfig, p: PeerId, j: Joint, run: seq<Step>, now: Time)
    requires Forgotten(j, p) && LegalRun(cfg, p, j, run) && NeverClaimed(cfg, p, j, run)
    requires forall x <- run :: StepUntouched(x, p)
    ensures var t := After(cfg, p, j, run);
            && Forgotten(t, p) && t.log == j.log && t.s.db.peers[p] == j.s.db.peers[p]
            && (IsExpired(t.s.db.peers[p], now) <==> IsExpired(j.s.db.peers[p], now))
    decreases |run|
  {
    if run != [] {
      assert run[0] in run && StepUntouched(run[0], p);
      CanTakeIs(j, run[0]);
      match run[0] {
        case Cluster(a, at) => ClusterKeepsForgotten(cfg, p, j, a, at);
        case Handle(q, stamp) => HandleKeepsForgotten(cfg, p, j, q, stamp);
      }
      hide Take, CanTake, Untouched, Forgotten, IsExpired;
      OfflineNeverRenewed(cfg, p, Take(cfg, j, run[0], p), run[1..], now);
    }
  }

  lemma PublishedWhenOnline(s: State, a: Action)
    requires Enabled(s, a) && a.WriteActive? && a.node != ""
    requires var w := s.nodes[a.node].phase.todo[0];
             w.id in s.db.peers && IsActiveAt(w, a.now) && Online(Next(s, a).db, w.id)
    ensures var nd := s.nodes[a.node];
            var w := nd.phase.todo[0];
            var e := Published(s.db, a.node, w, w.id !in nd.Cached(nd.phase.iface), a.now);
            e.Some? && (e.value.connected <==> !Online(s.db, w.id))
  {
    hide Apply, ClaimCallback, RefreshCallback;
    RefreshEffect(s.db, a.node, s.nodes[a.node].phase.todo[0], a.now);
  }

  /** A claim or refresh that leaves an active peer online queues a renewal with the copy just read. */
  lemma OnlineIsQueued(cfg: TtlConfig, p: PeerId, j: Joint, a: Action, now: Time)
    requires CopiesMatch(j) && Enabled(j.s, a) && a.WriteActive?
    requires var w := j.s.nodes[a.node].phase.todo[0]; w.id == p && p in j.s.db.peers && IsActiveAt(w, a.now)
    requires a.node != "" && Online(Next(j.s, a).db, p)
    ensures EventOf(j, a).Some? && EventOf(j, a).value.copy == j.copies[a.node] && j.copies[a.node].peer.id == p
    ensures EventOf(j, a).value.connected <==> !Online(j.s.db, p)
    ensures EventOf(j, a).value in Take(cfg, j, Cluster(a, now), p).queue
  {
    PublishedWhenOnline(j.s, a);
    hide Published, Next, Online, IsActiveAt;
  }
}
