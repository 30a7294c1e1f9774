/** The lease table behind AcquireLock, ReleaseLock and CleanupExpiredLocks
    (internal/adapters/database.go): every SQL statement is a step, all clocks agree. */
module Lease {
  import opened Domain

  type Key = string
  type SessionId = nat

  datatype Row = Row(node: NodeId, expires: Time)

  /** Where a caller is. now is the time it read on entry; every later statement compares with it. */
  datatype Phase =
    | Idle
    | Cleaning(now: Time, duration: Time)
    | Inserting(now: Time, duration: Time)
    | Conflicting(now: Time)
    | Found(now: Time)
    | Holding(expires: Time)

  /** One caller: name is the node name it passes, which the sync endpoint takes from a header. */
  datatype Session = Session(key: Key, name: NodeId, phase: Phase)

  datatype State = State(clock: Time, rows: map<Key, Row>, sessions: map<SessionId, Session>)

  predicate Init(st: State) {
    st.rows == map[] && forall s <- st.sessions :: st.sessions[s].phase == Idle
  }

  datatype Action =
    | Tick(time: Time)
    | Begin(s: SessionId, duration: Time)
    | DeleteExpired(s: SessionId, ok: bool)
    | Insert(s: SessionId, ok: bool)
    | LookUp(s: SessionId, ok: bool)
    | DeleteFound(s: SessionId, ok: bool)
    | Release(s: SessionId, ok: bool)
    | Abandon(s: SessionId)
    | Cleanup(before: Time)

  predicate Enabled(st: State, a: Action) {
    match a
    case Tick(t) => st.clock <= t
    case Cleanup(before) => before <= st.clock
    case Begin(s, _) => s in st.sessions && st.sessions[s].phase == Idle
    case DeleteExpired(s, _) => s in st.sessions && st.sessions[s].phase.Cleaning?
    case Insert(s, _) => s in st.sessions && st.sessions[s].phase.Inserting?
    case LookUp(s, _) => s in st.sessions && st.sessions[s].phase.Conflicting?
    case DeleteFound(s, _) => s in st.sessions && st.sessions[s].phase.Found?
    case Release(s, _) => s in st.sessions && st.sessions[s].phase.Holding?
    case Abandon(s) => s in st.sessions && st.sessions[s].phase.Holding?
  }

  /** The row of a key is gone when it expired before a time. */
  function WithoutExpired(rows: map<Key, Row>, key: Key, now: Time): map<Key, Row> {
    if key in rows && rows[key].expires < now then rows - {key} else rows
  }

  function Goto(st: State, s: SessionId, p: Phase): State
    requires s in st.sessions
  {
    st.(sessions := st.sessions[s := st.sessions[s].(phase := p)])
  }

  function Next(st: State, a: Action): State
    requires Enabled(st, a)
  {
    match a
    case Tick(t) => st.(clock := t)
    case Cleanup(before) => st.(rows := map k | k in st.rows && !(st.rows[k].expires < before) :: st.rows[k])
    case Begin(s, d) => Goto(st, s, Cleaning(st.clock, d))
    case DeleteExpired(s, ok) =>
      var c := st.sessions[s];
      Goto(if ok then st.(rows := WithoutExpired(st.rows, c.key, c.phase.now)) else st,
           s, Inserting(c.phase.now, c.phase.duration))
    case Insert(s, ok) =>
      var c := st.sessions[s];
      if ok && c.key !in st.rows then
        var expires := c.phase.now + c.phase.duration;
        Goto(st.(rows := st.rows[c.key := Row(c.name, expires)]), s, Holding(expires))
      else
        Goto(st, s, Conflicting(c.phase.now))
    case LookUp(s, ok) =>
      var c := st.sessions[s];
      Goto(st, s, if ok && c.key in st.rows && st.rows[c.key].expires < c.phase.now then Found(c.phase.now) else Idle)
    case DeleteFound(s, ok) =>
      Goto(if ok then st.(rows := st.rows - {st.sessions[s].key}) else st, s, Idle)
    case Release(s, ok) =>
      var c := st.sessions[s];
      Goto(if ok && Releases(st, c) then st.(rows := st.rows - {c.key}) else st, s, Idle)
    case Abandon(s) => Goto(st, s, Idle)
  }

  /** The row the release statement would delete: same key and node name, not yet expired. */
  predicate Releases(st: State, c: Session) {
    c.key in st.rows && st.rows[c.key].node == c.name && st.rows[c.key].expires > st.clock
  }

  // ---------- mutual exclusion ----------

  /** An unreleased lease that has not expired. */
  predicate Live(st: State, s: SessionId) {
    s in st.sessions && st.sessions[s].phase.Holding? && st.clock <= st.sessions[s].phase.expires
  }

  ghost predicate Exclusive(st: State) {
    forall s, x :: Live(st, s) && Live(st, x) && st.sessions[s].key == st.sessions[x].key ==> s == x
  }

  /** The row of a key names its live holder. */
  ghost predicate RowsNameHolders(st: State) {
    forall s :: Live(st, s) ==>
      var c := st.sessions[s];
      c.key in st.rows && st.rows[c.key] == Row(c.name, c.phase.expires)
  }

  ghost predicate Inv(st: State) {
    && Exclusive(st) && RowsNameHolders(st)
    && forall s :: s in st.sessions && !st.sessions[s].phase.Idle? && !st.sessions[s].phase.Holding? ==>
         st.sessions[s].phase.now <= st.clock
  }

  /** The step does not delete the row of another session's live lease. */
  ghost predicate Harmless(st: State, a: Action)
    requires Enabled(st, a)
  {
    match a
    case DeleteFound(s, true) => !exists x :: Live(st, x) && st.sessions[x].key == st.sessions[s].key
    case Release(s, true) =>
      !exists x :: x != s && Live(st, x) && st.sessions[x].key == st.sessions[s].key &&
                   st.sessions[x].name == st.sessions[s].name && st.sessions[x].phase.expires > st.clock
    case _ => true
  }

  /** A step keeps the invariant exactly when it is harmless. */
  lemma StepExact(st: State, a: Action)
    requires Inv(st) && Enabled(st, a)
    ensures Inv(Next(st, a)) <==> Harmless(st, a)
  {
    if Harmless(st, a) {
      HarmlessKeepsInv(st, a);
    } else {
      HarmBreaksInv(st, a);
    }
  }

  lemma HarmlessKeepsInv(st: State, a: Action)
    requires Inv(st) && Enabled(st, a) && Harmless(st, a)
    ensures Inv(Next(st, a))
  {
    var v := Next(st, a);
    forall s | Live(v, s)
      ensures s in st.sessions && v.sessions[s].key == st.sessions[s].key && v.sessions[s].name == st.sessions[s].name
      ensures Live(st, s) || (a.Insert? && a.s == s && v.sessions[s].key !in st.rows)
      ensures v.sessions[s].key in v.rows
      ensures v.rows[v.sessions[s].key] == Row(v.sessions[s].name, v.sessions[s].phase.expires)
    {
    }
  }

  lemma HarmBreaksInv(st: State, a: Action)
    requires Inv(st) && Enabled(st, a) && !Harmless(st, a)
    ensures !RowsNameHolders(Next(st, a))
  {
    var v := Next(st, a);
    var s := a.s;
    var x :| Live(st, x) && st.sessions[x].key == st.sessions[s].key &&
             (a.Release? ==>
                x != s && st.sessions[x].name == st.sessions[s].name && st.sessions[x].phase.expires > st.clock);
    assert Live(v, x) && v.sessions[x].key !in v.rows;
  }

  // ---------- runs ----------

  predicate LegalRun(st: State, run: seq<Action>)
    decreases |run|
  {
    run == [] || (Enabled(st, run[0]) && LegalRun(Next(st, run[0]), run[1..]))
  }

  function After(st: State, run: seq<Action>): State
    requires LegalRun(st, run)
    decreases |run|
  {
    if run == [] then st else After(Next(st, run[0]), run[1..])
  }

  /** A caller that found an expired row deletes it before anything else happens. */
  predicate PromptStep(st: State, a: Action) {
    forall s <- st.sessions :: st.sessions[s].phase.Found? ==> a.DeleteFound? && a.s == s
  }

  predicate Prompt(st: State, run: seq<Action>)
    requires LegalRun(st, run)
    decreases |run|
  {
    run == [] || (PromptStep(st, run[0]) && Prompt(Next(st, run[0]), run[1..]))
  }

  predicate DistinctNames(st: State) {
    forall s, x :: s in st.sessions && x in st.sessions && s != x && st.sessions[s].key == st.sessions[x].key ==>
      st.sessions[s].name != st.sessions[x].name
  }

  /** A found row is still the expired one. */
  ghost predicate FoundIsExpired(st: State) {
    forall s <- st.sessions :: st.sessions[s].phase.Found? ==>
      st.sessions[s].key in st.rows && st.rows[st.sessions[s].key].expires < st.sessions[s].phase.now
  }

  lemma {:induction false} RunKeepsInv(st: State, run: seq<Action>)
    requires Inv(st) && FoundIsExpired(st) && DistinctNames(st) && LegalRun(st, run) && Prompt(st, run)
    ensures Inv(After(st, run))
    decreases |run|
  {
    if run != [] {
      PromptKeeps(st, run[0]);
      hide Inv, FoundIsExpired, DistinctNames, Next, Enabled;
      RunKeepsInv(Next(st, run[0]), run[1..]);
    }
  }

  lemma PromptKeeps(st: State, a: Action)
    requires Inv(st) && FoundIsExpired(st) && DistinctNames(st) && Enabled(st, a) && PromptStep(st, a)
    ensures Inv(Next(st, a)) && FoundIsExpired(Next(st, a)) && DistinctNames(Next(st, a))
  {
    PromptIsHarmless(st, a);
    HarmlessKeepsInv(st, a);
    hide Inv;
    StepKeepsNames(st, a);
  }

  lemma PromptIsHarmless(st: State, a: Action)
    requires Inv(st) && FoundIsExpired(st) && DistinctNames(st) && Enabled(st, a) && PromptStep(st, a)
    ensures Harmless(st, a)
  {
  }

  lemma StepKeepsNames(st: State, a: Action)
    requires Enabled(st, a)
    ensures Next(st, a).sessions.Keys == st.sessions.Keys
    ensures forall s <- st.sessions ::
              Next(st, a).sessions[s].key == st.sessions[s].key && Next(st, a).sessions[s].name == st.sessions[s].name
  {
    hide WithoutExpired, Releases;
  }

  /** With one node name per caller and key, and look-up and deletion of an expired row in one go, at
      every moment at most one session has a live lease on a key, and the row names it. */
  lemma MutualExclusion(st: State, run: seq<Action>)
    requires Init(st) && DistinctNames(st) && LegalRun(st, run) && Prompt(st, run)
    ensures Exclusive(After(st, run)) && RowsNameHolders(After(st, run))
  {
    RunKeepsInv(st, run);
  }

  // ---------- both conditions are needed ----------

  predicate NothingFound(st: State) {
    forall s <- st.sessions :: !st.sessions[s].phase.Found?
  }

  function Acquire(s: SessionId, d: Time): seq<Action> {
    [Begin(s, d), DeleteExpired(s, true), Insert(s, true)]
  }

  /** A caller that is not disturbed gets a lease on a free key or one whose lease has expired. */
  lemma AcquireFree(st: State, s: SessionId, d: Time)
    requires s in st.sessions && st.sessions[s].phase == Idle
    requires st.sessions[s].key in st.rows ==> st.rows[st.sessions[s].key].expires < st.clock
    ensures LegalRun(st, Acquire(s, d))
    ensures NothingFound(st) ==> Prompt(st, Acquire(s, d))
    ensures var c := st.sessions[s];
            After(st, Acquire(s, d)) ==
            State(st.clock, st.rows[c.key := Row(c.name, st.clock + d)],
                  st.sessions[s := c.(phase := Holding(st.clock + d))])
  {
    hide LegalRun, After, Prompt, Next;
    var run := Acquire(s, d);
    ThreeSteps(st, s, d);
    var st1 := Next(st, run[0]);
    var st2 := Next(st1, run[1]);
    assert run[1..][1..] == [run[2]] && [run[2]][1..] == [];
    Unroll(st, run);
    Unroll(st1, run[1..]);
    Unroll(st2, [run[2]]);
    Nothing(Next(st2, run[2]));
  }

  lemma ThreeSteps(st: State, s: SessionId, d: Time)
    requires s in st.sessions && st.sessions[s].phase == Idle
    requires st.sessions[s].key in st.rows ==> st.rows[st.sessions[s].key].expires < st.clock
    ensures var c := st.sessions[s];
            && Enabled(st, Begin(s, d))
            && var st1 := Next(st, Begin(s, d));
            && Enabled(st1, DeleteExpired(s, true)) && (NothingFound(st) ==> NothingFound(st1))
            && var st2 := Next(st1, DeleteExpired(s, true));
            && Enabled(st2, Insert(s, true)) && (NothingFound(st) ==> NothingFound(st2))
            && Next(st2, Insert(s, true)) ==
               State(st.clock, st.rows[c.key := Row(c.name, st.clock + d)],
                     st.sessions[s := c.(phase := Holding(st.clock + d))])
  {
  }

  lemma Nothing(st: State)
    ensures LegalRun(st, []) && After(st, []) == st && Prompt(st, [])
  {
  }

  lemma Unroll(st: State, run: seq<Action>)
    requires run != [] && Enabled(st, run[0])
    ensures LegalRun(st, run) <==> LegalRun(Next(st, run[0]), run[1..])
    ensures LegalRun(st, run) ==> After(st, run) == After(Next(st, run[0]), run[1..])
    ensures LegalRun(st, run) ==> (Prompt(st, run) <==> PromptStep(st, run[0]) && Prompt(Next(st, run[0]), run[1..]))
  {
  }

  lemma {:induction false} Concat(st: State, a: seq<Action>, b: seq<Action>)
    requires LegalRun(st, a) && LegalRun(After(st, a), b)
    ensures LegalRun(st, a + b) && After(st, a + b) == After(After(st, a), b)
    ensures Prompt(st, a) && Prompt(After(st, a), b) ==> Prompt(st, a + b)
    decreases |a|
  {
    if a == [] {
      assert a + b == b;
    } else {
      hide Next, Enabled;
      assert (a + b)[1..] == a[1..] + b;
      Concat(Next(st, a[0]), a[1..], b);
    }
  }

  lemma Snoc(st: State, run: seq<Action>, a: Action)
    requires LegalRun(st, run) && Enabled(After(st, run), a)
    ensures LegalRun(st, run + [a]) && After(st, run + [a]) == Next(After(st, run), a)
    ensures Prompt(st, run) && PromptStep(After(st, run), a) ==> Prompt(st, run + [a])
  {
    hide LegalRun, After, Prompt, Next, Enabled;
    assert [a][1..] == [];
    Unroll(After(st, run), [a]);
    Nothing(Next(After(st, run), a));
    Concat(st, run, [a]);
  }

  /** Any two callers with the same name and key: the second one's lease follows the expired first one,
      the first releases what is not its own, and gets a lease while the second's is live. */
  lemma SharedNameBreaksExclusion(st: State, s: SessionId, x: SessionId) returns (run: seq<Action>)
    requires Init(st) && s in st.sessions && x in st.sessions && s != x
    requires st.sessions[s].key == st.sessions[x].key && st.sessions[s].name == st.sessions[x].name
    ensures LegalRun(st, run) && Prompt(st, run)
    ensures Live(After(st, run), s) && Live(After(st, run), x)
    ensures After(st, run).sessions[s].key == After(st, run).sessions[x].key
  {
    hide LegalRun, After, Prompt, Acquire;
    var later := st.clock + 10;
    run := Acquire(s, 5);
    AcquireFree(st, s, 5);
    Snoc(st, run, Tick(later));
    run := run + [Tick(later)];
    AcquireFree(After(st, run), x, 100);
    Concat(st, run, Acquire(x, 100));
    run := run + Acquire(x, 100);
    Snoc(st, run, Release(s, true));
    run := run + [Release(s, true)];
    AcquireFree(After(st, run), s, 100);
    Concat(st, run, Acquire(s, 100));
    run := run + Acquire(s, 100);
  }

  /** Whatever the callers: with expired rows deleted as soon as found, every run keeps exclusion and
      truthful rows if and only if no two callers of a key have the same name. */
  lemma ExclusionExactly(st: State)
    requires Init(st)
    ensures DistinctNames(st) <==>
            forall run :: LegalRun(st, run) && Prompt(st, run) ==>
              Exclusive(After(st, run)) && RowsNameHolders(After(st, run))
  {
    if DistinctNames(st) {
      forall run | LegalRun(st, run) && Prompt(st, run)
        ensures Exclusive(After(st, run)) && RowsNameHolders(After(st, run))
      {
        MutualExclusion(st, run);
      }
    } else {
      var s, x :| s in st.sessions && x in st.sessions && s != x && st.sessions[s].key == st.sessions[x].key &&
                  st.sessions[s].name == st.sessions[x].name;
      var run := SharedNameBreaksExclusion(st, s, x);
      assert !Exclusive(After(st, run));
    }
  }

  /** Look-up and deletion are two statements: a row inserted between them is deleted. Any two callers of
      a key, whatever their names, can so come to hold it together. */
  lemma LateDeleteBreaksExclusion(st: State, s: SessionId, x: SessionId) returns (run: seq<Action>)
    requires Init(st) && s in st.sessions && x in st.sessions && s != x && st.sessions[s].key == st.sessions[x].key
    ensures LegalRun(st, run)
    ensures Live(After(st, run), s) && Live(After(st, run), x)
    ensures After(st, run).sessions[s].key == After(st, run).sessions[x].key
  {
    hide LegalRun, After, Acquire, Prompt, PromptStep, NothingFound;
    run := LateRow(st, s, x);
    hide Init;
    Snoc(st, run, Abandon(s));
    run := run + [Abandon(s)];
    AcquireFree(After(st, run), s, 100);
    Concat(st, run, Acquire(s, 100));
    run := run + Acquire(s, 100);
    Snoc(st, run, DeleteFound(x, true));
    run := run + [DeleteFound(x, true)];
    assert st.sessions[x].key !in After(st, run).rows;
    AcquireFree(After(st, run), x, 100);
    Concat(st, run, Acquire(x, 100));
    run := run + Acquire(x, 100);
  }

  /** Caller x reads the clock and then finds the row that caller s inserts late, already expired. */
  lemma LateRow(st: State, s: SessionId, x: SessionId) returns (run: seq<Action>)
    requires Init(st) && s in st.sessions && x in st.sessions && s != x && st.sessions[s].key == st.sessions[x].key
    ensures LegalRun(st, run)
    ensures var c, d, t := st.sessions[s], st.sessions[x], st.clock;
            After(st, run) == State(t + 10, map[c.key := Row(c.name, t + 5)],
                                    st.sessions[s := c.(phase := Holding(t + 5))][x := d.(phase := Found(t + 10))])
  {
    hide LegalRun, After;
    run := BothInserting(st, s, x);
    hide Init;
    Snoc(st, run, Insert(s, true));
    run := run + [Insert(s, true)];
    Snoc(st, run, Insert(x, true));
    run := run + [Insert(x, true)];
    Snoc(st, run, LookUp(x, true));
    run := run + [LookUp(x, true)];
    assert After(st, run).rows == map[st.sessions[s].key := Row(st.sessions[s].name, st.clock + 5)];
  }

  /** Both callers are about to insert, ten time units apart. */
  lemma BothInserting(st: State, s: SessionId, x: SessionId) returns (run: seq<Action>)
    requires Init(st) && s in st.sessions && x in st.sessions && s != x
    ensures LegalRun(st, run)
    ensures var c, d, t := st.sessions[s], st.sessions[x], st.clock;
            After(st, run) == State(t + 10, map[], st.sessions[s := c.(phase := Inserting(t, 5))]
                                                              [x := d.(phase := Inserting(t + 10, 100))])
  {
    hide LegalRun, After;
    var later := st.clock + 10;
    run := StartsInserting(st, s, 5);
    Snoc(st, run, Tick(later));
    var rest := StartsInserting(After(st, run + [Tick(later)]), x, 100);
    Concat(st, run + [Tick(later)], rest);
    run := run + [Tick(later)] + rest;
  }

  lemma StartsInserting(st: State, s: SessionId, d: Time) returns (run: seq<Action>)
    requires st.rows == map[] && s in st.sessions && st.sessions[s].phase == Idle
    ensures LegalRun(st, run)
    ensures After(st, run) == Goto(st, s, Inserting(st.clock, d))
  {
    hide LegalRun, After;
    Nothing(st);
    run := [];
    Snoc(st, run, Begin(s, d));
    run := run + [Begin(s, d)];
    Snoc(st, run, DeleteExpired(s, true));
    run := run + [DeleteExpired(s, true)];
    assert After(st, run).sessions == st.sessions[s := st.sessions[s].(phase := Inserting(st.clock, d))];
  }

  predicate NoRivals(st: State) {
    forall s, x :: s in st.sessions && x in st.sessions && s != x ==> st.sessions[s].key != st.sessions[x].key
  }

  lemma {:induction false} AloneKeepsInv(st: State, run: seq<Action>)
    requires Inv(st) && NoRivals(st) && LegalRun(st, run)
    ensures Inv(After(st, run))
    decreases |run|
  {
    if run != [] {
      HarmlessKeepsInv(st, run[0]);
      StepKeepsNames(st, run[0]);
      hide Inv, Next, Enabled;
      AloneKeepsInv(Next(st, run[0]), run[1..]);
    }
  }

  /** Statement by statement, exclusion and truthful rows are kept by every run if and only if no two
      callers ever ask for the same key. */
  lemma StatementsExactly(st: State)
    requires Init(st)
    ensures NoRivals(st) <==>
            forall run :: LegalRun(st, run) ==> Exclusive(After(st, run)) && RowsNameHolders(After(st, run))
  {
    if NoRivals(st) {
      forall run | LegalRun(st, run)
        ensures Exclusive(After(st, run)) && RowsNameHolders(After(st, run))
      {
        AloneKeepsInv(st, run);
      }
    } else {
      var s, x :| s in st.sessions && x in st.sessions && s != x && st.sessions[s].key == st.sessions[x].key;
      var run := LateDeleteBreaksExclusion(st, s, x);
      assert !Exclusive(After(st, run));
    }
  }
}
