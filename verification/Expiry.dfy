/** Renewal of a connected peer's expiry (handlePeerStateChangeEvent in internal/app/wireguard/wireguard.go)
    against the query for expired peers, over whole runs of handled events. */
module Expiry {
  import opened Options
  import opened Domain
  import opened Collector
  import opened SqlRepository

  /** deleteExpired is delete_expired_peers; ttl is None when the configured duration does not parse. */
  datatype TtlConfig = TtlConfig(deleteExpired: bool, ttl: Option<Time>)

  /** The peer the handler saves, if it saves one: the event's own copy with a new expiry. */
  function RenewedPeer(cfg: TtlConfig, e: StateEvent, now: Time): Option<Peer> {
    if !cfg.deleteExpired || cfg.ttl.None? || e.peer.ttlLocked then None
    else if !e.connected && e.peer.expiresAt.Some? && e.peer.expiresAt.value > now + HOUR then None
    else Some(e.peer.(expiresAt := Some(now + cfg.ttl.value)))
  }

  /** A handled event: its copy of the peer was read at readAt, when `seen` events had been handled. */
  datatype Handled = Handled(connected: bool, seen: nat, readAt: Time, at: Time)

  /** The database row after the first k events. */
  function RowAfter(cfg: TtlConfig, p: Peer, run: seq<Handled>, k: nat): Peer
    requires k <= |run| && forall i :: 0 <= i < |run| ==> run[i].seen <= i
  {
    if k == 0 then p
    else
      var h := run[k - 1];
      AfterEvent(cfg, h, RowAfter(cfg, p, run, h.seen), RowAfter(cfg, p, run, k - 1))
  }

  function AfterEvent(cfg: TtlConfig, h: Handled, copy: Peer, row: Peer): Peer {
    var saved := RenewedPeer(cfg, StateEvent(h.connected, copy), h.at);
    if saved.Some? then saved.value else row
  }

  // ---------- rows that are not renewed ----------

  /** A locked row, and any row when expired peers are kept or the TTL does not parse, stays as it is
      through every run of events, with its expiry however old. */
  lemma {:induction false} NeverRenewed(cfg: TtlConfig, p: Peer, run: seq<Handled>, k: nat)
    requires k <= |run| && forall i :: 0 <= i < |run| ==> run[i].seen <= i
    requires p.ttlLocked || !cfg.deleteExpired || cfg.ttl.None?
    ensures RowAfter(cfg, p, run, k) == p
    decreases k
  {
    if k > 0 {
      NeverRenewed(cfg, p, run, run[k - 1].seen);
      NeverRenewed(cfg, p, run, k - 1);
    }
  }

  /** For every other row an event with an up-to-date copy leaves the expiry as it was exactly when it
      says offline and the expiry is more than an hour away, or it was at a full TTL already. */
  lemma ExpiryStaysExactly(cfg: TtlConfig, h: Handled, row: Peer)
    requires !row.ttlLocked && cfg.deleteExpired && cfg.ttl.Some?
    ensures AfterEvent(cfg, h, row, row).expiresAt == row.expiresAt <==>
            row.expiresAt.Some? &&
            ((!h.connected && row.expiresAt.value > h.at + 3_600_000_000_000) ||
             row.expiresAt.value == h.at + cfg.ttl.value)
    ensures AfterEvent(cfg, h, row, row).expiresAt != row.expiresAt ==>
              AfterEvent(cfg, h, row, row) == row.(expiresAt := Some(h.at + cfg.ttl.value))
  {
  }

  // ---------- timely events ----------

  /** Events are handled in time order, at most gap apart, with a copy at most age old; what was
      handled after the copy was read was handled no earlier than that. */
  predicate Timely(run: seq<Handled>, age: Time, gap: Time) {
    && (forall i :: 0 <= i < |run| ==> run[i].seen <= i && run[i].at - age <= run[i].readAt <= run[i].at)
    && (forall i, j :: 0 <= i < |run| && run[i].seen <= j < i ==> run[i].readAt <= run[j].at)
    && (forall i :: 0 < i < |run| ==> run[i - 1].at <= run[i].at <= run[i - 1].at + gap)
  }

  /** t lies after the k-th event and not after the next one is due. */
  predicate During(run: seq<Handled>, gap: Time, k: nat, t: Time) {
    && k <= |run| && run != []
    && (k > 0 ==> run[k - 1].at <= t <= run[k - 1].at + gap)
    && (k < |run| ==> t <= run[k].at)
  }

  /** While the row is in the shape it had at some event's read, or was renewed since, its expiry is
      either the one read or a full TTL after the read. */
  lemma {:induction false} SinceRead(cfg: TtlConfig, p: Peer, run: seq<Handled>, age: Time, gap: Time, i: nat, k: nat)
    requires Timely(run, age, gap) && i < |run| && run[i].seen <= k <= i
    requires cfg.deleteExpired && cfg.ttl.Some? && !p.ttlLocked
    ensures var e := RowAfter(cfg, p, run, k).expiresAt;
            || e == RowAfter(cfg, p, run, run[i].seen).expiresAt
            || (e.Some? && e.value >= run[i].readAt + cfg.ttl.value)
    decreases k
  {
    if k > run[i].seen {
      SinceRead(cfg, p, run, age, gap, i, k - 1);
    }
  }

  lemma {:induction false} StaysUnlocked(cfg: TtlConfig, p: Peer, run: seq<Handled>, k: nat)
    requires k <= |run| && (forall i :: 0 <= i < |run| ==> run[i].seen <= i) && !p.ttlLocked
    ensures !RowAfter(cfg, p, run, k).ttlLocked
    decreases k
  {
    if k > 0 {
      StaysUnlocked(cfg, p, run, run[k - 1].seen);
      StaysUnlocked(cfg, p, run, k - 1);
    }
  }

  lemma EventSecuresGap(cfg: TtlConfig, h: Handled, copy: Peer, row: Peer, age: Time, gap: Time)
    requires cfg.deleteExpired && cfg.ttl.Some? && !copy.ttlLocked && h.at - age <= h.readAt
    requires row.expiresAt == copy.expiresAt || (row.expiresAt.Some? && row.expiresAt.value >= h.readAt + cfg.ttl.value)
    requires 0 <= age && age + gap <= cfg.ttl.value && gap <= HOUR + 1
    ensures var next := AfterEvent(cfg, h, copy, row);
            next.expiresAt.Some? && next.expiresAt.value >= h.at + gap
  {
  }

  /** After every handled event the expiry covers the gap to the next one. */
  lemma RowCoversGap(cfg: TtlConfig, p: Peer, run: seq<Handled>, age: Time, gap: Time, k: nat)
    requires cfg.deleteExpired && cfg.ttl.Some? && !p.ttlLocked && Timely(run, age, gap) && 0 < k <= |run|
    requires age + gap <= cfg.ttl.value && gap <= HOUR + 1
    ensures var e := RowAfter(cfg, p, run, k).expiresAt; e.Some? && e.value >= run[k - 1].at + gap
  {
    var h := run[k - 1];
    var copy, row := RowAfter(cfg, p, run, h.seen), RowAfter(cfg, p, run, k - 1);
    hide AfterEvent;
    assert RowAfter(cfg, p, run, k) == AfterEvent(cfg, h, copy, row);
    assert h.at - age <= h.readAt <= h.at;
    StaysUnlocked(cfg, p, run, h.seen);
    SinceRead(cfg, p, run, age, gap, k - 1, k - 1);
    hide RowAfter, Timely;
    EventSecuresGap(cfg, h, copy, row, age, gap);
  }

  /** A connected peer is never expired: at no moment of the run does the expiry query return it. */
  lemma NeverExpired(cfg: TtlConfig, p: Peer, run: seq<Handled>, age: Time, gap: Time, k: nat, t: Time)
    requires cfg.deleteExpired && cfg.ttl.Some? && !p.ttlLocked
    requires Timely(run, age, gap) && During(run, gap, k, t)
    requires p.expiresAt.Some? ==> p.expiresAt.value >= run[0].at
    requires age + gap <= cfg.ttl.value && gap <= HOUR + 1
    ensures !IsExpired(RowAfter(cfg, p, run, k), t)
  {
    if k > 0 {
      RowCoversGap(cfg, p, run, age, gap, k);
      hide RowAfter;
    }
  }

  /** A moment of a run that the bounds cover, for a peer with no past expiry at the start. */
  predicate Covered(p: Peer, run: seq<Handled>, age: Time, gap: Time, k: nat, t: Time) {
    && !p.ttlLocked && Timely(run, age, gap) && During(run, gap, k, t)
    && (p.expiresAt.Some? ==> p.expiresAt.value >= run[0].at)
  }

  /** Every run with these bounds keeps a connected peer from expiring. */
  ghost predicate Safe(ttl: Time, age: Time, gap: Time) {
    forall p: Peer, run: seq<Handled>, k: nat, t: Time ::
      Covered(p, run, age, gap, k, t) ==>
        !IsExpired(RowAfter(TtlConfig(true, Some(ttl)), p, run, k), t)
  }

  /** The bounds are exact, however stale the copies: unless all events fall on one moment, the age of
      the copy and the gap together fit into the TTL, and the gap alone fits into the hour (times are
      whole nanoseconds) within which a far expiry is left as it is. */
  lemma SafeExactly(p: Peer, ttl: Time, age: Time, gap: Time)
    requires !p.ttlLocked && 0 <= age && 0 <= gap && 0 <= ttl
    ensures Safe(ttl, age, gap) <==> gap == 0 || (age + gap <= ttl && gap <= HOUR + 1)
  {
    if gap == 0 || (age + gap <= ttl && gap <= HOUR + 1) {
      forall q: Peer, run: seq<Handled>, k: nat, t: Time |
        Covered(q, run, age, gap, k, t)
        ensures !IsExpired(RowAfter(TtlConfig(true, Some(ttl)), q, run, k), t)
      {
        if gap == 0 {
          OneMoment(TtlConfig(true, Some(ttl)), q, run, age, k);
          if k < |run| {
            SameTime(run, age, k);
          }
          if k > 0 {
            SameTime(run, age, k - 1);
          }
        } else {
          NeverExpired(TtlConfig(true, Some(ttl)), q, run, age, gap, k, t);
        }
      }
    } else if age + gap > ttl {
      StaleCopyExpires(p, ttl, age, gap);
    } else {
      LongGapExpires(p, ttl, age, gap);
    }
  }

  lemma {:induction false} SameTime(run: seq<Handled>, age: Time, i: nat)
    requires Timely(run, age, 0) && i < |run|
    ensures run[i].at == run[0].at
  {
    if i > 0 {
      SameTime(run, age, i - 1);
    }
  }

  /** Without a gap every renewal happens at the first event's time, and lasts at least that long. */
  lemma {:induction false} OneMoment(cfg: TtlConfig, p: Peer, run: seq<Handled>, age: Time, k: nat)
    requires cfg.ttl.Some? && cfg.ttl.value >= 0 && Timely(run, age, 0) && run != [] && k <= |run|
    requires p.expiresAt.Some? ==> p.expiresAt.value >= run[0].at
    ensures var e := RowAfter(cfg, p, run, k).expiresAt; e.Some? ==> e.value >= run[0].at
    decreases k
  {
    if k > 0 {
      SameTime(run, age, k - 1);
      OneMoment(cfg, p, run, age, k - 1);
    }
  }

  // ---------- both bounds are needed ----------

  function BacklogTime(age: nat, gap: nat, i: nat): nat {
    if i * gap < age then i * gap else age
  }

  /** One connected event at time 0 and offline events up to gap apart until age, all with a copy read
      at time 0. */
  function Backlog(age: nat, gap: nat): seq<Handled> {
    seq(age + 1, i requires 0 <= i < age + 1 => Handled(i == 0, 0, 0, BacklogTime(age, gap, i)))
  }

  lemma BacklogStep(age: nat, gap: nat, i: nat)
    requires i > 0
    ensures BacklogTime(age, gap, i - 1) <= BacklogTime(age, gap, i) <= BacklogTime(age, gap, i - 1) + gap
  {
    assert i * gap == (i - 1) * gap + gap;
  }

  lemma BacklogEnds(age: nat, gap: nat)
    requires gap > 0
    ensures BacklogTime(age, gap, 0) == 0 && BacklogTime(age, gap, age) == age
    ensures forall i: nat :: BacklogTime(age, gap, i) <= age
  {
    assert age * gap == age + age * (gap - 1);
  }

  lemma BacklogTimely(age: nat, gap: nat)
    requires gap > 0
    ensures Timely(Backlog(age, gap), age, gap) && Backlog(age, gap)[age].at == age
  {
    forall i | 0 < i < age + 1
      ensures Backlog(age, gap)[i - 1].at <= Backlog(age, gap)[i].at <= Backlog(age, gap)[i - 1].at + gap
    {
      BacklogStep(age, gap, i);
    }
    BacklogEnds(age, gap);
    hide BacklogTime;
  }

  /** The connected event sets one TTL; the others see the far expiry of their copy and leave it. */
  lemma {:induction false} BacklogRow(p: Peer, ttl: Time, age: nat, gap: nat, k: nat)
    requires !p.ttlLocked && p.expiresAt == Some(age + HOUR + 1) && 0 < k <= age + 1
    ensures RowAfter(TtlConfig(true, Some(ttl)), p, Backlog(age, gap), k).expiresAt == Some(ttl)
    decreases k
  {
    var cfg, run := TtlConfig(true, Some(ttl)), Backlog(age, gap);
    assert RowAfter(cfg, p, run, run[k - 1].seen) == p;
    if k > 1 {
      BacklogRow(p, ttl, age, gap, k - 1);
    } else {
      assert BacklogTime(age, gap, 0) == 0;
    }
  }

  /** A peer with a far expiry connects, which sets it to one TTL; a backlog of events read before that
      is handled after it and leaves the expiry alone, and the next event comes too late. */
  lemma StaleCopyExpires(p: Peer, ttl: Time, age: Time, gap: Time)
    requires !p.ttlLocked && 0 <= age && 0 < gap && age + gap > ttl
    ensures !Safe(ttl, age, gap)
  {
    var q := p.(expiresAt := Some(age + HOUR + 1));
    var run := Backlog(age, gap);
    BacklogTimely(age, gap);
    BacklogRow(q, ttl, age, gap, age + 1);
    assert BacklogTime(age, gap, 0) == 0;
    assert IsExpired(RowAfter(TtlConfig(true, Some(ttl)), q, run, age + 1), age + gap);
    assert Timely(run, age, gap) && During(run, gap, age + 1, age + gap);
  }

  /** With a gap above an hour an expiry just over an hour away is skipped once and then missed. */
  lemma LongGapExpires(p: Peer, ttl: Time, age: Time, gap: Time)
    requires !p.ttlLocked && 0 <= age && gap > HOUR + 1
    ensures !Safe(ttl, age, gap)
  {
    var cfg, q := TtlConfig(true, Some(ttl)), p.(expiresAt := Some(HOUR + 1));
    var run := [Handled(false, 0, 0, 0)];
    assert RowAfter(cfg, q, run, 0) == q;
    assert RowAfter(cfg, q, run, 1).expiresAt == Some(HOUR + 1);
    assert IsExpired(RowAfter(cfg, q, run, 1), gap);
    assert Timely(run, age, gap) && During(run, gap, 1, gap);
  }
}
