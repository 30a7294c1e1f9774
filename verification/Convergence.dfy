/** Event-driven synchronisation of the remote nodes: a write commits a row, then publishes an event
    that carries only the peer's identifier; every node re-reads the row and updates its device. */
module Convergence {
  import opened Options
  import opened Domain
  import opened Device

  datatype EventKind = Created | Updated | Deleted

  datatype Event = Event(id: PeerId, kind: EventKind)

  /** The handler of a node holds the row it read (None: missing) until it writes the device. */
  datatype Job = Idle | Holding(id: PeerId, row: Option<Peer>)

  /** wire: requests sent to the node's endpoint; queue: local sync events not yet handled. Both may
      be overtaken in any order; only one handler runs at a time. */
  datatype Node = Node(wire: multiset<Event>, queue: multiset<PeerId>, job: Job, device: Table)

  /** unpublished: events of committed writes that the fanout has not sent yet. */
  datatype World = World(rows: map<PeerId, Peer>, unpublished: multiset<Event>, nodes: seq<Node>)

  // ---------- steps ----------

  datatype Action =
    | Create(p: Peer)
    | Update(existing: Peer, p: Peer)
    | Delete(id: PeerId)
    | Expire(ids: set<PeerId>, announced: set<PeerId>)
    | Publish(e: Event)
    | Deliver(n: nat, e: Event)
    | ReadRow(n: nat, id: PeerId)
    | WriteDevice(n: nat)

  predicate IsNetworkStep(a: Action) {
    a.Publish? || a.Deliver? || a.ReadRow? || a.WriteDevice?
  }

  /** A row the program stores: saving to its own device fails for an identifier that is no key. */
  predicate Storable(p: Peer, env: Env) {
    env.isKey(p.id)
  }

  predicate Enabled(w: World, a: Action, env: Env) {
    match a
    case Create(p) => Storable(p, env) && p.id !in w.rows
    case Update(_, p) => Storable(p, env)
    case Delete(id) => id in w.rows
    case Expire(ids, _) => true
    case Publish(e) => e in w.unpublished
    case Deliver(n, e) => n < |w.nodes| && e in w.nodes[n].wire
    case ReadRow(n, id) => n < |w.nodes| && w.nodes[n].job == Idle && id in w.nodes[n].queue
    case WriteDevice(n) => n < |w.nodes| && w.nodes[n].job != Idle
  }

  /** The endpoint looks the row up: a missing row is passed on only for a deletion. */
  function Received(node: Node, e: Event, rows: map<PeerId, Peer>): Node {
    var rest := node.(wire := node.wire - multiset{e});
    if e.id !in rows && e.kind != Deleted then rest
    else rest.(queue := rest.queue + multiset{e.id})
  }

  function Row(rows: map<PeerId, Peer>, id: PeerId): Option<Peer> {
    if id in rows then Some(rows[id]) else None
  }

  /** The device once the running handler has written to it. */
  function Written(node: Node, env: Env): Table {
    match node.job
    case Idle => node.device
    case Holding(id, None) => node.device - {id}
    case Holding(id, Some(p)) => Saved(node.device, p, env)
  }

  function Announce(ids: set<PeerId>): multiset<Event> {
    multiset(set id <- ids :: Event(id, Deleted))
  }

  function Next(w: World, a: Action, env: Env): World
    requires Enabled(w, a, env)
  {
    match a
    case Create(p) =>
      w.(rows := w.rows[p.id := p], unpublished := w.unpublished + multiset{Event(p.id, Created)})
    case Update(existing, p) =>
      w.(rows := w.rows[p.id := p],
         unpublished := if HasMeaningfulChanges(existing, p)
                        then w.unpublished + multiset{Event(p.id, Updated)} else w.unpublished)
    case Delete(id) =>
      w.(rows := w.rows - {id}, unpublished := w.unpublished + multiset{Event(id, Deleted)})
    case Expire(ids, announced) =>
      w.(rows := w.rows - ids, unpublished := w.unpublished + Announce(announced))
    case Publish(e) =>
      w.(unpublished := w.unpublished - multiset{e},
         nodes := seq(|w.nodes|, i requires 0 <= i < |w.nodes| =>
                    w.nodes[i].(wire := w.nodes[i].wire + multiset{e})))
    case Deliver(n, e) => w.(nodes := w.nodes[n := Received(w.nodes[n], e, w.rows)])
    case ReadRow(n, id) =>
      var node := w.nodes[n];
      w.(nodes := w.nodes[n := node.(queue := node.queue - multiset{id}, job := Holding(id, Row(w.rows, id)))])
    case WriteDevice(n) =>
      w.(nodes := w.nodes[n := w.nodes[n].(job := Idle, device := Written(w.nodes[n], env))])
  }

  // ---------- what convergence needs of the writers ----------

  /** Both rows put the same peer on the device. */
  predicate SameProjection(p: Peer, q: Peer, env: Env) {
    p.IsDisabled() == q.IsDisabled() && Projection(p, env) == Projection(q, env)
  }

  /** A write that publishes nothing must leave what the row projects to as it is. */
  predicate Faithful(w: World, a: Action, env: Env) {
    && (a.Update? && !HasMeaningfulChanges(a.existing, a.p) ==>
          a.p.id in w.rows && SameProjection(w.rows[a.p.id], a.p, env))
    && (a.Expire? ==> a.ids * w.rows.Keys <= a.announced)
  }

  /** Every enabled row has its own key, and no two project to a common network. */
  predicate DisjointRows(rows: map<PeerId, Peer>, env: Env) {
    && (forall x <- rows :: !rows[x].IsDisabled() ==> OwnKey(rows[x], env))
    && forall x, y :: x in rows && y in rows && x != y && !rows[x].IsDisabled() && !rows[y].IsDisabled() ==>
      Projection(rows[x], env) !! Projection(rows[y], env)
  }

  predicate LegalRun(w: World, run: seq<Action>, env: Env)
    decreases |run|
  {
    run == [] || (Enabled(w, run[0], env) && Faithful(w, run[0], env) && LegalRun(Next(w, run[0], env), run[1..], env))
  }

  /** A legal run on whose every state the rows have their own keys and claim no network twice. */
  predicate DisjointRun(w: World, run: seq<Action>, env: Env)
    requires LegalRun(w, run, env)
    decreases |run|
  {
    DisjointRows(w.rows, env) && (run == [] || DisjointRun(Next(w, run[0], env), run[1..], env))
  }

  function After(w: World, run: seq<Action>, env: Env): World
    requires LegalRun(w, run, env)
    decreases |run|
  {
    if run == [] then w else After(Next(w, run[0], env), run[1..], env)
  }

  // ---------- the invariant ----------

  /** The table has the peer as its row says; with networks, it also has its networks. */
  predicate Matches(t: Table, rows: map<PeerId, Peer>, id: PeerId, networks: bool, env: Env) {
    && (id in t <==> id in rows && !rows[id].IsDisabled())
    && (networks && id in t && id in rows ==> t[id].allowed == Projection(rows[id], env))
  }

  /** Something is on its way that will make the node look at the row again. */
  predicate Pending(w: World, node: Node, id: PeerId) {
    || id in node.queue
    || Event(id, Deleted) in w.unpublished || Event(id, Deleted) in node.wire
    || (id in w.rows && exists k :: Event(id, k) in w.unpublished || Event(id, k) in node.wire)
  }

  ghost predicate NodeInv(w: World, node: Node, networks: bool, env: Env) {
    forall id :: Pending(w, node, id) || Matches(Written(node, env), w.rows, id, networks, env)
  }

  ghost predicate Inv(w: World, networks: bool, env: Env) {
    && (forall id <- w.rows :: w.rows[id].id == id && Storable(w.rows[id], env))
    && forall n :: 0 <= n < |w.nodes| ==> NodeInv(w, w.nodes[n], networks, env)
  }

  predicate Quiescent(w: World) {
    && w.unpublished == multiset{}
    && forall node <- w.nodes :: node.wire == multiset{} && node.queue == multiset{} && node.job == Idle
  }

  /** Every device holds exactly the enabled rows; with networks, each with exactly its networks. */
  ghost predicate Converged(w: World, networks: bool, env: Env) {
    forall node <- w.nodes, id :: Matches(node.device, w.rows, id, networks, env)
  }

  predicate Init(w: World) {
    && w.rows == map[] && Quiescent(w)
    && forall node <- w.nodes :: node.device == map[]
  }

  lemma InitInv(w: World, networks: bool, env: Env)
    requires Init(w)
    ensures Inv(w, networks, env)
  {
  }

  // ---------- every step keeps it ----------

  lemma WriterKeepsInv(w: World, a: Action, networks: bool, env: Env)
    requires Inv(w, networks, env) && Enabled(w, a, env) && Faithful(w, a, env)
    requires a.Create? || a.Update? || a.Delete? || a.Expire?
    ensures Inv(Next(w, a, env), networks, env)
  {
    hide Written, Projection, HasMeaningfulChanges, NodeInv;
    var v := Next(w, a, env);
    forall n | 0 <= n < |v.nodes| ensures NodeInv(v, v.nodes[n], networks, env) {
      WriterKeepsNode(w, a, w.nodes[n], networks, env);
    }
  }

  lemma WriterKeepsNode(w: World, a: Action, node: Node, networks: bool, env: Env)
    requires NodeInv(w, node, networks, env) && Enabled(w, a, env) && Faithful(w, a, env)
    requires a.Create? || a.Update? || a.Delete? || a.Expire?
    ensures NodeInv(Next(w, a, env), node, networks, env)
  {
    hide Written, Projection, HasMeaningfulChanges;
    var v := Next(w, a, env);
    forall id ensures Pending(v, node, id) || Matches(Written(node, env), v.rows, id, networks, env) {
      assert Pending(w, node, id) || Matches(Written(node, env), w.rows, id, networks, env);
    }
  }

  /** A step that leaves the rows alone, and a node that neither forgets a peer nor changes what its
      device is about to hold. */
  lemma Carry(w: World, v: World, node: Node, after: Node, networks: bool, env: Env)
    requires NodeInv(w, node, networks, env) && v.rows == w.rows && Written(after, env) == Written(node, env)
    requires forall id :: Pending(w, node, id) ==> Pending(v, after, id)
    ensures NodeInv(v, after, networks, env)
  {
    hide Written, Pending, Matches;
  }

  lemma PublishKeepsInv(w: World, e: Event, networks: bool, env: Env)
    requires Inv(w, networks, env) && e in w.unpublished
    ensures Inv(Next(w, Publish(e), env), networks, env)
  {
    hide NodeInv;
    var v := Next(w, Publish(e), env);
    forall n | 0 <= n < |v.nodes| ensures NodeInv(v, v.nodes[n], networks, env) {
      forall id ensures Pending(w, w.nodes[n], id) ==> Pending(v, v.nodes[n], id) {
        PublishKeepsPending(w, w.nodes[n], e, id);
        assert v.nodes[n] == w.nodes[n].(wire := w.nodes[n].wire + multiset{e});
        SamePending(w.(unpublished := v.unpublished), v, v.nodes[n], id);
      }
      Carry(w, v, w.nodes[n], v.nodes[n], networks, env);
    }
  }

  lemma PublishKeepsPending(w: World, node: Node, e: Event, id: PeerId)
    requires e in w.unpublished
    ensures Pending(w, node, id) ==>
              Pending(w.(unpublished := w.unpublished - multiset{e}), node.(wire := node.wire + multiset{e}), id)
  {
    assert forall x :: x in w.unpublished ==> x in w.unpublished - multiset{e} || x in node.wire + multiset{e};
  }

  /** Passing a request on, or dropping it, never loses track of a peer. */
  lemma ReceivedKeepsPending(w: World, node: Node, e: Event, id: PeerId)
    requires e in node.wire && Pending(w, node, id)
    ensures Pending(w, Received(node, e, w.rows), id)
  {
    assert forall x :: x != e && x in node.wire ==> x in node.wire - multiset{e};
  }

  /** The endpoint passes an event on exactly when the row exists or the event is a deletion. */
  lemma ForwardsExactly(node: Node, e: Event, rows: map<PeerId, Peer>)
    requires e in node.wire
    ensures var after := Received(node, e, rows);
            && (after.queue[e.id] == node.queue[e.id] + 1 <==> e.id in rows || e.kind == Deleted)
            && (after.queue == node.queue || after.queue == node.queue + multiset{e.id})
            && after.wire == node.wire - multiset{e} && after.job == node.job && after.device == node.device
  {
  }

  lemma DeliverKeepsInv(w: World, n: nat, e: Event, networks: bool, env: Env)
    requires Inv(w, networks, env) && Enabled(w, Deliver(n, e), env)
    ensures Inv(Next(w, Deliver(n, e), env), networks, env)
  {
    hide NodeInv, Pending;
    var v := Next(w, Deliver(n, e), env);
    forall m | 0 <= m < |v.nodes| ensures NodeInv(v, v.nodes[m], networks, env) {
      forall id ensures Pending(w, w.nodes[m], id) ==> Pending(v, v.nodes[m], id) {
        if m == n && Pending(w, w.nodes[n], id) {
          ReceivedKeepsPending(w, w.nodes[n], e, id);
        }
        SamePending(w, v, v.nodes[m], id);
      }
      Carry(w, v, w.nodes[m], v.nodes[m], networks, env);
    }
  }

  lemma SamePending(w: World, v: World, node: Node, id: PeerId)
    requires v.rows == w.rows && v.unpublished == w.unpublished
    ensures Pending(w, node, id) == Pending(v, node, id)
  {
  }

  /** Reading a row settles that peer; giving it its networks takes none from a settled one. */
  lemma ReadKeepsInv(w: World, n: nat, id: PeerId, networks: bool, env: Env)
    requires Inv(w, networks, env) && Enabled(w, ReadRow(n, id), env)
    requires networks ==> DisjointRows(w.rows, env)
    ensures Inv(Next(w, ReadRow(n, id), env), networks, env)
  {
    hide Projection;
    var v := Next(w, ReadRow(n, id), env);
    forall m, x | 0 <= m < |v.nodes|
      ensures Pending(v, v.nodes[m], x) || Matches(Written(v.nodes[m], env), v.rows, x, networks, env)
    {
      var node := w.nodes[m];
      assert NodeInv(w, node, networks, env);
      if m == n && x != id {
        assert Pending(w, node, x) ==> Pending(v, v.nodes[m], x);
        if id in w.rows {
          SavedOther(node.device, w.rows[id], x, networks, env);
        }
      } else if m == n && id in w.rows {
        SavedSelf(node.device, w.rows[id], networks, env);
      }
    }
  }

  lemma SavedOther(t: Table, p: Peer, x: PeerId, networks: bool, env: Env)
    requires x != p.id && (networks && !p.IsDisabled() ==> OwnKey(p, env))
    ensures x in Saved(t, p, env) <==> x in t
    ensures networks && x in t && (p.IsDisabled() || t[x].allowed !! Projection(p, env)) ==>
              Saved(t, p, env)[x].allowed == t[x].allowed
  {
    hide Projection, EntryAfter;
    SavedKeys(t, p, env, x);
    SavedNone(t, p, env);
    if networks && env.isKey(p.id) && !p.IsDisabled() {
      SavedUnderOwnKey(t, p, env);
    }
    hide Saved;
  }

  lemma SavedSelf(t: Table, p: Peer, networks: bool, env: Env)
    requires env.isKey(p.id) && (networks && !p.IsDisabled() ==> OwnKey(p, env))
    ensures p.id in Saved(t, p, env) <==> !p.IsDisabled()
    ensures networks && !p.IsDisabled() ==> Saved(t, p, env)[p.id].allowed == Projection(p, env)
  {
    hide Projection;
    SavedKeys(t, p, env, p.id);
    if networks && !p.IsDisabled() {
      SavedUnderOwnKey(t, p, env);
    }
    hide Saved;
  }

  lemma WriteKeepsInv(w: World, n: nat, networks: bool, env: Env)
    requires Inv(w, networks, env) && Enabled(w, WriteDevice(n), env)
    ensures Inv(Next(w, WriteDevice(n), env), networks, env)
  {
    hide NodeInv;
    var v := Next(w, WriteDevice(n), env);
    WrittenTwice(w.nodes[n], env);
    forall m | 0 <= m < |v.nodes| ensures NodeInv(v, v.nodes[m], networks, env) {
      Carry(w, v, w.nodes[m], v.nodes[m], networks, env);
    }
  }

  lemma WrittenTwice(node: Node, env: Env)
    ensures Written(node.(job := Idle, device := Written(node, env)), env) == Written(node, env)
  {
  }

  lemma StepKeepsInv(w: World, a: Action, networks: bool, env: Env)
    requires Inv(w, networks, env) && Enabled(w, a, env) && Faithful(w, a, env)
    requires networks ==> DisjointRows(w.rows, env)
    ensures Inv(Next(w, a, env), networks, env)
  {
    match a
    case Publish(e) => PublishKeepsInv(w, e, networks, env);
    case Deliver(n, e) => DeliverKeepsInv(w, n, e, networks, env);
    case ReadRow(n, id) => ReadKeepsInv(w, n, id, networks, env);
    case WriteDevice(n) => WriteKeepsInv(w, n, networks, env);
    case _ => WriterKeepsInv(w, a, networks, env);
  }

  lemma {:induction false} RunKeepsInv(w: World, run: seq<Action>, networks: bool, env: Env)
    requires Inv(w, networks, env) && LegalRun(w, run, env)
    requires networks ==> DisjointRun(w, run, env)
    ensures Inv(After(w, run, env), networks, env)
    decreases |run|
  {
    if run != [] {
      StepKeepsInv(w, run[0], networks, env);
      RunKeepsInv(Next(w, run[0], env), run[1..], networks, env);
    }
  }

  lemma QuietInvConverged(w: World, networks: bool, env: Env)
    requires Inv(w, networks, env) && Quiescent(w)
    ensures Converged(w, networks, env)
  {
    forall node, id | node in w.nodes
      ensures Matches(node.device, w.rows, id, networks, env)
    {
      var n :| 0 <= n < |w.nodes| && w.nodes[n] == node;
      assert NodeInv(w, w.nodes[n], networks, env);
      assert !Pending(w, node, id);
    }
  }

  // ---------- convergence ----------

  /** Whatever the writers do and however events overtake each other, once nothing is on its way every
      node's device holds exactly the enabled rows. */
  lemma PresenceConverges(w: World, run: seq<Action>, env: Env)
    requires Init(w) && LegalRun(w, run, env) && Quiescent(After(w, run, env))
    ensures Converged(After(w, run, env), false, env)
  {
    InitInv(w, false, env);
    RunKeepsInv(w, run, false, env);
    QuietInvConverged(After(w, run, env), false, env);
  }

  /** And, when no network is ever claimed twice, with exactly their networks. */
  lemma NetworksConverge(w: World, run: seq<Action>, env: Env)
    requires Init(w) && LegalRun(w, run, env) && DisjointRun(w, run, env) && Quiescent(After(w, run, env))
    ensures Converged(After(w, run, env), true, env)
  {
    InitInv(w, true, env);
    RunKeepsInv(w, run, true, env);
    QuietInvConverged(After(w, run, env), true, env);
  }

  /** At every moment a peer that is not up to date on a node still has something on its way to it. */
  lemma NeverForgotten(w: World, run: seq<Action>, env: Env, n: nat, id: PeerId)
    requires Init(w) && LegalRun(w, run, env) && DisjointRun(w, run, env)
    requires n < |After(w, run, env).nodes|
    ensures var v := After(w, run, env);
            Pending(v, v.nodes[n], id) || Matches(Written(v.nodes[n], env), v.rows, id, true, env)
  {
    InitInv(w, true, env);
    RunKeepsInv(w, run, true, env);
    var v := After(w, run, env);
    assert NodeInv(v, v.nodes[n], true, env);
  }

  // ---------- it takes a bounded number of steps ----------

  /** A bound on the network steps still to come: a queued event needs a read and a write. */
  function NodeWork(node: Node): nat {
    3 * |node.wire| + 2 * |node.queue| + if node.job == Idle then 0 else 1
  }

  function NodesWork(nodes: seq<Node>): nat {
    if nodes == [] then 0 else NodesWork(nodes[1..]) + NodeWork(nodes[0])
  }

  function Work(w: World): nat {
    (3 * |w.nodes| + 1) * |w.unpublished| + NodesWork(w.nodes)
  }

  lemma {:induction false} OneNodeWork(nodes: seq<Node>, n: nat, node: Node)
    requires n < |nodes|
    ensures NodesWork(nodes[n := node]) == NodesWork(nodes) - NodeWork(nodes[n]) + NodeWork(node)
  {
    if n > 0 {
      OneNodeWork(nodes[1..], n - 1, node);
      assert nodes[n := node][1..] == nodes[1..][n - 1 := node];
    } else {
      assert nodes[0 := node][1..] == nodes[1..];
    }
  }

  lemma {:induction false} SentWork(nodes: seq<Node>, sent: seq<Node>, e: Event)
    requires |sent| == |nodes|
    requires forall i :: 0 <= i < |nodes| ==> sent[i] == nodes[i].(wire := nodes[i].wire + multiset{e})
    ensures NodesWork(sent) == NodesWork(nodes) + 3 * |nodes|
  {
    if nodes != [] {
      SentWork(nodes[1..], sent[1..], e);
    }
  }

  /** Every network step uses up work. */
  lemma NetworkStepWorks(w: World, a: Action, env: Env)
    requires Enabled(w, a, env) && IsNetworkStep(a)
    ensures Work(Next(w, a, env)) < Work(w)
  {
    hide NodeWork, NodesWork, Received, Written;
    match a
    case Publish(e) => PublishWorks(w, e, env);
    case Deliver(n, e) =>
      ReceivedWork(w.nodes[n], e, w.rows);
      OneNodeWork(w.nodes, n, Received(w.nodes[n], e, w.rows));
    case ReadRow(n, id) =>
      var node := w.nodes[n].(queue := w.nodes[n].queue - multiset{id}, job := Holding(id, Row(w.rows, id)));
      ReadWork(w.nodes[n], id, Row(w.rows, id));
      OneNodeWork(w.nodes, n, node);
    case WriteDevice(n) =>
      var node := w.nodes[n].(job := Idle, device := Written(w.nodes[n], env));
      assert NodeWork(node) < NodeWork(w.nodes[n]) by { WriteWork(w.nodes[n], node.device); }
      OneNodeWork(w.nodes, n, node);
  }

  lemma ReceivedWork(node: Node, e: Event, rows: map<PeerId, Peer>)
    requires e in node.wire
    ensures NodeWork(Received(node, e, rows)) < NodeWork(node)
  {
    assert |node.wire - multiset{e}| == |node.wire| - 1;
  }

  lemma ReadWork(node: Node, id: PeerId, row: Option<Peer>)
    requires id in node.queue && node.job == Idle
    ensures NodeWork(node.(queue := node.queue - multiset{id}, job := Holding(id, row))) < NodeWork(node)
  {
    assert |node.queue - multiset{id}| == |node.queue| - 1;
  }

  lemma WriteWork(node: Node, device: Table)
    requires node.job != Idle
    ensures NodeWork(node.(job := Idle, device := device)) < NodeWork(node)
  {
  }

  lemma OneLess(k: nat, u: nat)
    ensures k * u == k * (u - 1) + k
  {
  }

  lemma PublishWorks(w: World, e: Event, env: Env)
    requires e in w.unpublished
    ensures Work(Next(w, Publish(e), env)) < Work(w)
  {
    hide NodesWork, HasMeaningfulChanges, Received, Written, Saved;
    var v := Next(w, Publish(e), env);
    SentWork(w.nodes, v.nodes, e);
    assert |v.unpublished| == |w.unpublished| - 1 && |v.nodes| == |w.nodes|;
    OneLess(3 * |w.nodes| + 1, |w.unpublished|);
  }

  /** While something is on its way, some network step can be taken. */
  lemma NeverStuck(w: World, env: Env) returns (a: Action)
    requires !Quiescent(w)
    ensures Enabled(w, a, env) && IsNetworkStep(a)
  {
    if w.unpublished != multiset{} {
      var e :| e in w.unpublished;
      return Publish(e);
    }
    var node :| node in w.nodes && !(node.wire == multiset{} && node.queue == multiset{} && node.job == Idle);
    var n :| 0 <= n < |w.nodes| && w.nodes[n] == node;
    if node.wire != multiset{} {
      var e :| e in node.wire;
      return Deliver(n, e);
    } else if node.job != Idle {
      return WriteDevice(n);
    } else {
      var id :| id in node.queue;
      return ReadRow(n, id);
    }
  }

  /** Once the writers stop, no schedule of the network and the handlers is longer than the work. */
  lemma {:induction false} DrainBound(w: World, run: seq<Action>, env: Env)
    requires LegalRun(w, run, env) && forall a <- run :: IsNetworkStep(a)
    ensures |run| + Work(After(w, run, env)) <= Work(w)
    ensures After(w, run, env).rows == w.rows
    decreases |run|
  {
    if run != [] {
      assert run[0] in run;
      NetworkStepWorks(w, run[0], env);
      DrainBound(Next(w, run[0], env), run[1..], env);
    }
  }

  /** From any world the network steps can be run to quiescence. */
  lemma {:induction false} Drain(w: World, env: Env) returns (run: seq<Action>)
    ensures LegalRun(w, run, env) && Quiescent(After(w, run, env))
    ensures forall a <- run :: IsNetworkStep(a)
    decreases Work(w)
  {
    if Quiescent(w) {
      return [];
    }
    var a := NeverStuck(w, env);
    NetworkStepWorks(w, a, env);
    var rest := Drain(Next(w, a, env), env);
    run := [a] + rest;
    assert run[1..] == rest;
  }

  // ---------- the condition on silent writes is exact ----------

  /** A quiet, converged cluster stays converged under a silent update if and only if the stored row
      and the new one project to the same thing; when the row is gone, if and only if the row that
      the update creates anew is disabled. */
  lemma SilentUpdateExact(w: World, existing: Peer, p: Peer, env: Env)
    requires Quiescent(w) && Converged(w, true, env) && w.nodes != []
    requires Enabled(w, Update(existing, p), env) && !HasMeaningfulChanges(existing, p)
    ensures Quiescent(Next(w, Update(existing, p), env))
    ensures Converged(Next(w, Update(existing, p), env), true, env) <==>
            if p.id in w.rows
            then p.IsDisabled() == w.rows[p.id].IsDisabled() &&
                 (!p.IsDisabled() ==> Projection(p, env) == Projection(w.rows[p.id], env))
            else p.IsDisabled()
  {
    hide Projection, HasMeaningfulChanges;
    var v := Next(w, Update(existing, p), env);
    assert v.nodes == w.nodes;
    var node := w.nodes[0];
    assert Matches(node.device, w.rows, p.id, true, env);
    if Converged(v, true, env) {
      assert node in v.nodes && Matches(node.device, v.rows, p.id, true, env);
    } else {
      var other, id :| other in v.nodes && !Matches(other.device, v.rows, id, true, env);
      assert other in w.nodes && Matches(other.device, w.rows, id, true, env);
    }
  }

  /** The update compares with the row it loaded, not with the one it overwrites: two updates that
      read the same row and write in turn leave the devices with what the first one wrote. */
  lemma OverwrittenUpdateDiverges(w: World, row: Peer, first: Peer, renewed: Peer, env: Env) returns (run: seq<Action>)
    requires Init(w) && w.nodes != [] && Storable(row, env) && !row.IsDisabled()
    requires first.disabled.Some? && first == row.(disabled := first.disabled)
    requires renewed == row.(expiresAt := renewed.expiresAt)
    ensures LegalRun(w, run, env) && Quiescent(After(w, run, env))
    ensures After(w, run, env).rows == map[row.id := first]
    ensures var v := Next(After(w, run, env), Update(row, renewed), env); Quiescent(v) && !Converged(v, false, env)
  {
    hide Projection;
    SilentUpdates(row, renewed);
    SilentUpdates(row, first);
    var w2 := Next(Next(w, Create(row), env), Update(row, first), env);
    assert w2.rows == map[row.id := first];
    var rest := Drain(w2, env);
    run := [Create(row), Update(row, first)] + rest;
    assert run[1..] == [Update(row, first)] + rest;
    assert run[1..][1..] == rest;
    DrainBound(w2, rest, env);
    PresenceConverges(w, run, env);
    var u := After(w, run, env);
    var v := Next(u, Update(row, renewed), env);
    NodesStay(w, run, env);
    var node := u.nodes[0];
    assert Matches(node.device, u.rows, row.id, false, env);
    assert node in v.nodes && !Matches(node.device, v.rows, row.id, false, env);
  }

  /** A deletion, or the expiry cleanup, can fall between the load and the save of an update: the save
      creates the row anew, and no other node ever gets the peer back. A renewal of a row whose public
      key is not its identifier does the same on its own: it deletes the old identifier and saves the new. */
  lemma DeletedUpdateDiverges(w: World, row: Peer, renewed: Peer, env: Env) returns (run: seq<Action>)
    requires Init(w) && w.nodes != [] && Storable(row, env) && Storable(renewed, env) && !row.IsDisabled()
    requires renewed == row.(id := renewed.id, expiresAt := renewed.expiresAt)
    ensures LegalRun(w, run, env) && Quiescent(After(w, run, env))
    ensures run != [] && run[0] == Create(row) && After(w, run, env).rows == map[]
    ensures var v := Next(After(w, run, env), Update(row, renewed), env); Quiescent(v) && !Converged(v, false, env)
  {
    hide Projection;
    SilentUpdates(row, renewed);
    var w2 := Next(Next(w, Create(row), env), Delete(row.id), env);
    assert w2.rows == map[];
    var rest := Drain(w2, env);
    run := [Create(row), Delete(row.id)] + rest;
    assert run[1..] == [Delete(row.id)] + rest;
    assert run[1..][1..] == rest;
    DrainBound(w2, rest, env);
    PresenceConverges(w, run, env);
    var u := After(w, run, env);
    var v := Next(u, Update(row, renewed), env);
    NodesStay(w, run, env);
    var node := u.nodes[0];
    assert Matches(node.device, u.rows, renewed.id, false, env);
    assert node in v.nodes && !Matches(node.device, v.rows, renewed.id, false, env);
  }

  lemma {:induction false} NodesStay(w: World, run: seq<Action>, env: Env)
    requires LegalRun(w, run, env)
    ensures |After(w, run, env).nodes| == |w.nodes|
    decreases |run|
  {
    if run != [] {
      NodesStay(Next(w, run[0], env), run[1..], env);
    }
  }

  /** Removing rows without announcing any of them keeps a quiet cluster converged if and only if none
      of the rows was enabled. */
  lemma UnannouncedExpiryExact(w: World, ids: set<PeerId>, env: Env)
    requires Quiescent(w) && Converged(w, false, env) && w.nodes != []
    ensures Quiescent(Next(w, Expire(ids, {}), env))
    ensures Converged(Next(w, Expire(ids, {}), env), false, env) <==>
            forall id <- ids :: id in w.rows ==> w.rows[id].IsDisabled()
  {
    var v := Next(w, Expire(ids, {}), env);
    assert Announce({}) == multiset{};
    var node := w.nodes[0];
    if id :| id in ids && id in w.rows && !w.rows[id].IsDisabled() {
      assert Matches(node.device, w.rows, id, false, env);
      assert node in v.nodes && !Matches(node.device, v.rows, id, false, env);
    } else if !Converged(v, false, env) {
      var other, id :| other in v.nodes && !Matches(other.device, v.rows, id, false, env);
      assert other in w.nodes && Matches(other.device, w.rows, id, false, env);
    }
  }

  // ---------- rows with another public key ----------

  /** The states of a node that only ever heard of the one row p, saved without its own key. */
  predicate BareNode(node: Node, p: Peer) {
    && (node.device == map[] || node.device == map[p.id := BLANK])
    && (node.job == Idle || node.job == Holding(p.id, Some(p)))
    && (forall e <- node.wire :: e.id == p.id) && forall id <- node.queue :: id == p.id
  }

  predicate Bare(w: World, p: Peer) {
    && w.rows == map[p.id := p] && (forall e <- w.unpublished :: e.id == p.id)
    && forall node <- w.nodes :: BareNode(node, p)
  }

  lemma BareStep(w: World, p: Peer, a: Action, env: Env)
    requires Bare(w, p) && Enabled(w, a, env) && IsNetworkStep(a)
    requires Storable(p, env) && !p.IsDisabled() && !OwnKey(p, env)
    ensures Bare(Next(w, a, env), p)
  {
    hide Saved, OwnKey, HasMeaningfulChanges, BareNode;
    var v := Next(w, a, env);
    forall n | 0 <= n < |v.nodes| ensures BareNode(v.nodes[n], p) {
      assert w.nodes[n] in w.nodes;
      match a
      case Publish(e) => BareMore(w.nodes[n], p, e);
      case Deliver(m, e) => if m == n { BareReceived(w.nodes[n], p, e, w.rows); }
      case ReadRow(m, id) => if m == n { BareRead(w.nodes[n], p, id); }
      case WriteDevice(m) => if m == n { BareWritten(w.nodes[n], p, env); }
    }
  }

  lemma BareMore(node: Node, p: Peer, e: Event)
    requires BareNode(node, p) && e.id == p.id
    ensures BareNode(node.(wire := node.wire + multiset{e}), p)
  {
  }

  lemma BareReceived(node: Node, p: Peer, e: Event, rows: map<PeerId, Peer>)
    requires BareNode(node, p) && e in node.wire
    ensures BareNode(Received(node, e, rows), p)
  {
  }

  lemma BareRead(node: Node, p: Peer, id: PeerId)
    requires BareNode(node, p) && id in node.queue
    ensures id == p.id
    ensures BareNode(node.(queue := node.queue - multiset{id}, job := Holding(id, Some(p))), p)
  {
  }

  lemma BareWritten(node: Node, p: Peer, env: Env)
    requires BareNode(node, p) && Storable(p, env) && !p.IsDisabled() && !OwnKey(p, env)
    ensures BareNode(node.(job := Idle, device := Written(node, env)), p)
  {
    BareSave(node.device, p, env);
    hide Saved;
  }

  lemma BareSave(t: Table, p: Peer, env: Env)
    requires Storable(p, env) && !p.IsDisabled() && !OwnKey(p, env)
    requires t == map[] || t == map[p.id := BLANK]
    ensures Saved(t, p, env) == map[p.id := BLANK]
  {
    assert t[p.id := Before(t, p.id)] == map[p.id := BLANK];
  }

  lemma {:induction false} BareRun(w: World, p: Peer, run: seq<Action>, env: Env)
    requires Bare(w, p) && LegalRun(w, run, env) && forall a <- run :: IsNetworkStep(a)
    requires Storable(p, env) && !p.IsDisabled() && !OwnKey(p, env)
    ensures Bare(After(w, run, env), p)
    decreases |run|
  {
    if run != [] {
      hide Bare, Next, Enabled, OwnKey;
      assert run[0] in run;
      BareStep(w, p, run[0], env);
      BareRun(Next(w, run[0], env), p, run[1..], env);
    }
  }

  /** The condition on keys is needed for the networks: an announced creation of an enabled row without
      its own key ends, under every schedule, with a bare peer on every node, present but without
      networks. */
  lemma OtherKeyStaysBare(w: World, p: Peer, run: seq<Action>, env: Env)
    requires Init(w) && Storable(p, env) && !p.IsDisabled() && !OwnKey(p, env)
    requires LegalRun(Next(w, Create(p), env), run, env) && forall a <- run :: IsNetworkStep(a)
    requires Quiescent(After(Next(w, Create(p), env), run, env))
    ensures forall node <- After(Next(w, Create(p), env), run, env).nodes :: node.device == map[p.id := BLANK]
  {
    var u, all := Next(w, Create(p), env), [Create(p)] + run;
    assert all[1..] == run;
    BareRun(u, p, run, env);
    assert LegalRun(w, all, env) && After(w, all, env) == After(u, run, env);
    PresenceConverges(w, all, env);
    var v := After(u, run, env);
    forall node | node in v.nodes ensures node.device == map[p.id := BLANK] {
      assert Matches(node.device, v.rows, p.id, false, env);
    }
  }
}
