/** The three lock operations as the repository runs them, undisturbed by other callers, against the
    statement steps of module Lease. */
module LeaseTable {
  import opened Options
  import opened Domain
  import opened Lease

  /** Which statements succeed; a failed one has no effect. */
  datatype Faults = Faults(cleanOk: bool, insertOk: bool, lookUpOk: bool, deleteOk: bool)

  /** A single caller about to run one operation. */
  function Alone(clock: Time, rows: map<Key, Row>, c: Session): State {
    State(clock, rows, map[0 := c])
  }

  /** The steps of run, taken by a single caller, lead from these rows and phase to those. */
  ghost predicate Runs(clock: Time, rows: map<Key, Row>, c: Session, run: seq<Action>, rows': map<Key, Row>,
                       phase: Phase) {
    LegalRun(Alone(clock, rows, c), run) && After(Alone(clock, rows, c), run) == Alone(clock, rows', c.(phase := phase))
  }

  lemma Undisturbed(clock: Time, rows: map<Key, Row>, c: Session)
    ensures Runs(clock, rows, c, [], rows, c.phase)
  {
    Nothing(Alone(clock, rows, c));
  }

  lemma RunsSnoc(clock: Time, rows: map<Key, Row>, c: Session, run: seq<Action>, rows': map<Key, Row>, phase: Phase,
                 a: Action)
    requires Runs(clock, rows, c, run, rows', phase) && Enabled(Alone(clock, rows', c.(phase := phase)), a) && !a.Tick?
    ensures var v := Next(Alone(clock, rows', c.(phase := phase)), a);
            v.sessions.Keys == {0} && Runs(clock, rows, c, run + [a], v.rows, v.sessions[0].phase)
  {
    hide LegalRun, After;
    Snoc(Alone(clock, rows, c), run, a);
    StepKeepsNames(Alone(clock, rows', c.(phase := phase)), a);
  }

  /** The two opening statements: note the time, delete the expired row. */
  lemma RunsOpening(clock: Time, rows: map<Key, Row>, c: Session, d: Time, ok: bool)
    requires c.phase == Idle
    ensures Runs(clock, rows, c, [Begin(0, d), DeleteExpired(0, ok)],
                 if ok then WithoutExpired(rows, c.key, clock) else rows, Inserting(clock, d))
  {
    hide Runs;
    Undisturbed(clock, rows, c);
    RunsSnoc(clock, rows, c, [], rows, Idle, Begin(0, d));
    assert [] + [Begin(0, d)] == [Begin(0, d)];
    RunsSnoc(clock, rows, c, [Begin(0, d)], rows, Cleaning(clock, d), DeleteExpired(0, ok));
    assert [Begin(0, d)] + [DeleteExpired(0, ok)] == [Begin(0, d), DeleteExpired(0, ok)];
  }

  lemma RunsInsert(clock: Time, rows: map<Key, Row>, c: Session, run: seq<Action>, rows': map<Key, Row>, now: Time,
                   d: Time, ok: bool)
    requires Runs(clock, rows, c, run, rows', Inserting(now, d))
    ensures if ok && c.key !in rows'
            then Runs(clock, rows, c, run + [Insert(0, ok)], rows'[c.key := Row(c.name, now + d)], Holding(now + d))
            else Runs(clock, rows, c, run + [Insert(0, ok)], rows', Conflicting(now))
  {
    hide Runs;
    RunsSnoc(clock, rows, c, run, rows', Inserting(now, d), Insert(0, ok));
  }

  lemma RunsLookUp(clock: Time, rows: map<Key, Row>, c: Session, run: seq<Action>, rows': map<Key, Row>, now: Time,
                   ok: bool)
    requires Runs(clock, rows, c, run, rows', Conflicting(now))
    ensures Runs(clock, rows, c, run + [LookUp(0, ok)], rows',
                 if ok && c.key in rows' && rows'[c.key].expires < now then Found(now) else Idle)
  {
    hide Runs;
    RunsSnoc(clock, rows, c, run, rows', Conflicting(now), LookUp(0, ok));
  }

  lemma RunsDeleteFound(clock: Time, rows: map<Key, Row>, c: Session, run: seq<Action>, rows': map<Key, Row>, now: Time,
                        ok: bool)
    requires Runs(clock, rows, c, run, rows', Found(now))
    ensures Runs(clock, rows, c, run + [DeleteFound(0, ok)], if ok then rows' - {c.key} else rows', Idle)
  {
    hide Runs;
    RunsSnoc(clock, rows, c, run, rows', Found(now), DeleteFound(0, ok));
  }

  class SqlLocks {
    var clock: Time
    var rows: map<Key, Row>

    /** Either the lease is taken, or the holder is named, or the caller may try again. */
    method AcquireLock(key: Key, nodeID: NodeId, duration: Time, f: Faults)
      returns (acquired: bool, heldBy: Option<NodeId>, ghost run: seq<Action>)
      modifies this`rows
      ensures var free := key !in old(rows) || old(rows)[key].expires < clock;
              f.cleanOk && f.insertOk ==> acquired == free
      ensures acquired ==> rows == old(rows)[key := Row(nodeID, clock + duration)]
      ensures heldBy.Some? ==> !acquired && rows == old(rows) && key in rows && rows[key].node == heldBy.value &&
                               clock <= rows[key].expires
      ensures !acquired && f.cleanOk && f.insertOk && f.lookUpOk ==> heldBy.Some?
      ensures Runs(clock, old(rows), Session(key, nodeID, Idle), run, rows,
                   if acquired then Holding(clock + duration) else Idle)
    {
      hide Runs;
      var now := clock;
      ghost var c := Session(key, nodeID, Idle);
      RunsOpening(clock, rows, c, duration, f.cleanOk);
      run := [Begin(0, duration), DeleteExpired(0, f.cleanOk)];
      if f.cleanOk {
        rows := WithoutExpired(rows, key, now);
      }
      RunsInsert(clock, old(rows), c, run, rows, now, duration, f.insertOk);
      run := run + [Insert(0, f.insertOk)];
      if f.insertOk && key !in rows {
        rows := rows[key := Row(nodeID, now + duration)];
        return true, None, run;
      }
      RunsLookUp(clock, old(rows), c, run, rows, now, f.lookUpOk);
      run := run + [LookUp(0, f.lookUpOk)];
      if f.lookUpOk && key in rows {
        if rows[key].expires < now {
          RunsDeleteFound(clock, old(rows), c, run, rows, now, f.deleteOk);
          run := run + [DeleteFound(0, f.deleteOk)];
          if f.deleteOk {
            rows := rows - {key};
          }
          return false, None, run;
        }
        return false, Some(rows[key].node), run;
      }
      return false, None, run;
    }

    /** Deletes the caller's own unexpired row and nothing else. */
    method ReleaseLock(key: Key, nodeID: NodeId, ok: bool)
      modifies this`rows
      ensures var c := Session(key, nodeID, Holding(clock));
              Alone(clock, rows, c.(phase := Idle)) == Next(Alone(clock, old(rows), c), Release(0, ok))
    {
      if ok && key in rows && rows[key].node == nodeID && rows[key].expires > clock {
        rows := rows - {key};
      }
      assert forall c: Session, p: Phase :: map[0 := c][0 := c.(phase := p)] == map[0 := c.(phase := p)];
    }

    /** Deletes exactly the rows that have expired. */
    method CleanupExpiredLocks(ok: bool)
      modifies this`rows
      ensures rows == if ok then Next(State(clock, old(rows), map[]), Cleanup(clock)).rows else old(rows)
      ensures ok ==> forall k, r :: k in rows && rows[k] == r <==>
                       k in old(rows) && old(rows)[k] == r && clock <= r.expires
    {
      if ok {
        rows := map k | k in rows && !(rows[k].expires < clock) :: rows[k];
      }
    }
  }
}
