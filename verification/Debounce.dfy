/** The debouncer of the fanout (internal/app/fanout/fanout.go) as steps of its callers, its timers,
    their callbacks and the consumer of its one-place channel. */
module Debounce {
  import opened Options

  type TimerId = nat

  /** Where the one caller of Bump that holds the mutex is. */
  datatype BumpPc = Free | Draining | Rearming

  /** current: the field t; armed: timers that will fire; toSend and toReset: callbacks before their
      send and before their reset; unserved: some bump ended after the consumer last woke up. */
  datatype State = State(
    current: Option<TimerId>,
    armed: set<TimerId>,
    made: nat,
    toSend: nat,
    toReset: nat,
    token: bool,
    pc: BumpPc,
    unserved: bool,
    bumps: nat,
    served: nat)

  const START := State(None, {}, 0, 0, 0, false, Free, false, 0, 0)

  datatype Action = BumpNew | BumpStop | BumpDrain | BumpReset | Fire(id: TimerId) | Send | Reset | Receive

  predicate Enabled(s: State, a: Action) {
    match a
    case BumpNew => s.pc == Free && s.current.None?
    case BumpStop => s.pc == Free && s.current.Some?
    case BumpDrain => s.pc == Draining
    case BumpReset => s.pc == Rearming && s.current.Some?
    case Fire(id) => id in s.armed
    case Send => s.toSend > 0
    case Reset => s.toReset > 0 && s.pc == Free
    case Receive => s.token
  }

  predicate IsBump(a: Action) {
    a == BumpNew || a == BumpStop
  }

  function Next(s: State, a: Action): State
    requires Enabled(s, a)
  {
    match a
    case BumpNew =>
      s.(current := Some(s.made), armed := s.armed + {s.made}, made := s.made + 1,
         unserved := true, bumps := s.bumps + 1)
    case BumpStop =>
      s.(armed := s.armed - {s.current.value}, pc := if s.current.value in s.armed then Rearming else Draining)
    case BumpDrain => s.(token := false, pc := Rearming)
    case BumpReset => s.(armed := s.armed + {s.current.value}, pc := Free, unserved := true, bumps := s.bumps + 1)
    case Fire(id) => s.(armed := s.armed - {id}, toSend := s.toSend + 1)
    case Send => s.(token := true, toSend := s.toSend - 1, toReset := s.toReset + 1)
    case Reset => s.(current := None, toReset := s.toReset - 1)
    case Receive => s.(token := false, unserved := false, served := s.served + 1)
  }

  predicate LegalRun(s: State, run: seq<Action>)
    decreases |run|
  {
    run == [] || (Enabled(s, run[0]) && LegalRun(Next(s, run[0]), run[1..]))
  }

  function After(s: State, run: seq<Action>): State
    requires LegalRun(s, run)
    decreases |run|
  {
    if run == [] then s else After(Next(s, run[0]), run[1..])
  }

  function Bit(b: bool): nat {
    if b then 1 else 0
  }

  // ---------- no lost wake-up, no extra wake-up ----------

  /** Something will still put a token into the channel, or one is there. */
  predicate WakeUpAhead(s: State) {
    s.armed != {} || s.toSend > 0 || s.token || s.pc != Free
  }

  predicate Inv(s: State) {
    && (forall id <- s.armed :: id < s.made)
    && (s.current.Some? ==> s.current.value < s.made)
    && (s.pc != Free ==> s.current.Some? && s.current.value !in s.armed)
    && (s.unserved ==> WakeUpAhead(s))
    && s.served + Bit(s.token) + s.toSend + |s.armed| <= s.bumps
  }

  lemma StepKeepsInv(s: State, a: Action)
    requires Inv(s) && Enabled(s, a)
    ensures Inv(Next(s, a))
  {
  }

  lemma {:induction false} RunKeepsInv(s: State, run: seq<Action>)
    requires Inv(s) && LegalRun(s, run)
    ensures Inv(After(s, run))
    decreases |run|
  {
    if run != [] {
      StepKeepsInv(s, run[0]);
      RunKeepsInv(Next(s, run[0]), run[1..]);
    }
  }

  /** However bumps, timers, callbacks and the consumer interleave, a bump the consumer has not seen
      still has a wake-up ahead, and the consumer never wakes up more often than it was bumped. */
  lemma NoLostWakeUp(run: seq<Action>)
    requires LegalRun(START, run)
    ensures After(START, run).unserved ==> WakeUpAhead(After(START, run))
    ensures After(START, run).served <= After(START, run).bumps
  {
    RunKeepsInv(START, run);
  }

  // ---------- every bump is served ----------

  predicate Quiet(s: State) {
    !WakeUpAhead(s) && s.toReset == 0
  }

  /** A bound on the steps still to come when nobody starts another bump. */
  function StepsLeft(s: State): nat {
    4 * |s.armed| + 3 * s.toSend + s.toReset + Bit(s.token) +
    match s.pc case Free => 0 case Draining => 6 case Rearming => 5
  }

  lemma StepCounts(s: State, a: Action)
    requires Inv(s) && Enabled(s, a) && !IsBump(a)
    ensures StepsLeft(Next(s, a)) < StepsLeft(s)
  {
  }

  /** Unless all is quiet, a step other than a new bump can be taken. */
  lemma NeverStuck(s: State) returns (a: Action)
    requires Inv(s) && !Quiet(s)
    ensures Enabled(s, a) && !IsBump(a)
  {
    if s.pc == Draining {
      return BumpDrain;
    } else if s.pc == Rearming {
      return BumpReset;
    } else if s.token {
      return Receive;
    } else if s.toSend > 0 {
      return Send;
    } else if s.toReset > 0 {
      return Reset;
    } else {
      var id :| id in s.armed;
      return Fire(id);
    }
  }

  /** Once the bumps stop, no schedule is longer than the bound, and one that cannot go on has served
      every bump. */
  lemma {:induction false} BumpsAreServed(s: State, run: seq<Action>)
    requires Inv(s) && LegalRun(s, run) && forall a <- run :: !IsBump(a)
    ensures |run| + StepsLeft(After(s, run)) <= StepsLeft(s)
    ensures (forall a :: Enabled(After(s, run), a) ==> IsBump(a)) ==> !After(s, run).unserved
    decreases |run|
  {
    if run == [] {
      if !Quiet(s) {
        var _ := NeverStuck(s);
      }
    } else {
      assert run[0] in run;
      StepKeepsInv(s, run[0]);
      StepCounts(s, run[0]);
      BumpsAreServed(Next(s, run[0]), run[1..]);
    }
  }

  // ---------- a drained token is gone ----------

  lemma {:induction false} NoTokenWithoutSend(s: State, run: seq<Action>)
    requires LegalRun(s, run) && !s.token && Send !in run
    ensures !After(s, run).token
    decreases |run|
  {
    if run != [] {
      assert run[0] in run && forall a <- run[1..] :: a in run;
      NoTokenWithoutSend(Next(s, run[0]), run[1..]);
    }
  }

  /** A token in the channel after a drain was sent after the drain: the bump postponed the wake-up. */
  lemma TokenAfterDrain(s: State, run: seq<Action>)
    requires Enabled(s, BumpDrain) && LegalRun(Next(s, BumpDrain), run) && After(Next(s, BumpDrain), run).token
    ensures Send in run
  {
    if Send !in run {
      NoTokenWithoutSend(Next(s, BumpDrain), run);
    }
  }

  /** A bump drains the channel exactly when it finds its timer stopped; in time, it stops the timer and
      leaves the token. Nothing but the drain and the consumer takes a token. */
  lemma DrainsExactly(s: State, a: Action)
    requires Inv(s) && Enabled(s, a)
    ensures a == BumpStop ==> (Enabled(Next(s, a), BumpDrain) <==> s.current.value !in s.armed)
    ensures a == BumpStop ==> (Enabled(Next(s, a), BumpReset) <==> s.current.value in s.armed)
    ensures s.token && !Next(s, a).token ==> a == Receive || a == BumpDrain
  {
  }

  // ---------- one timer at a time, as long as no reset comes late ----------

  /** The field t knows the only armed timer. */
  predicate Tracked(s: State) {
    forall id <- s.armed :: s.current == Some(id)
  }

  /** A step loses track of an armed timer exactly when it is a reset that comes after its timer was
      armed again. */
  lemma LateResetExact(s: State, a: Action)
    requires Inv(s) && Tracked(s) && Enabled(s, a)
    ensures Tracked(Next(s, a)) <==> !(a == Reset && s.armed != {})
  {
    if a == Reset && s.armed != {} {
      var id :| id in s.armed;
      assert id in Next(s, a).armed;
    }
  }

  predicate NoLateReset(s: State, run: seq<Action>)
    requires LegalRun(s, run)
    decreases |run|
  {
    run == [] || (!(run[0] == Reset && s.armed != {}) && NoLateReset(Next(s, run[0]), run[1..]))
  }

  lemma {:induction false} OneTimer(s: State, run: seq<Action>)
    requires Inv(s) && Tracked(s) && LegalRun(s, run) && NoLateReset(s, run)
    ensures |After(s, run).armed| <= 1
    decreases |run|
  {
    if run == [] {
      if s.armed != {} {
        assert s.armed == {s.current.value};
      }
    } else {
      StepKeepsInv(s, run[0]);
      LateResetExact(s, run[0]);
      OneTimer(Next(s, run[0]), run[1..]);
    }
  }

  /** The first timer has fired and sent; the next bump has found it stopped and drains the channel. */
  const OVERTAKEN := State(Some(0), {}, 1, 0, 1, true, Draining, true, 1, 0)

  /** A bump between a callback's send and its reset leaves two timers armed after the next bump. */
  lemma LateResetArmsTwo() returns (run: seq<Action>)
    ensures LegalRun(START, run) && After(START, run).armed == {0, 1}
  {
    hide LegalRun, After;
    FirstHalf();
    SecondHalf();
    run := [BumpNew, Fire(0), Send, BumpStop] + [BumpDrain, BumpReset, Reset, BumpNew];
    Concat(START, [BumpNew, Fire(0), Send, BumpStop], [BumpDrain, BumpReset, Reset, BumpNew]);
  }

  lemma FirstHalf()
    ensures LegalRun(START, [BumpNew, Fire(0), Send, BumpStop])
    ensures After(START, [BumpNew, Fire(0), Send, BumpStop]) == OVERTAKEN
  {
    hide LegalRun, After;
    assert [BumpNew, Fire(0)] + [Send, BumpStop] == [BumpNew, Fire(0), Send, BumpStop];
    assert [Send, BumpStop] + [] == [Send, BumpStop];
    FirstStates();
    hide Next, Enabled;
    var s2 := Next(Next(START, BumpNew), Fire(0));
    UnrollTwo(START, BumpNew, Fire(0), [Send, BumpStop]);
    UnrollTwo(s2, Send, BumpStop, []);
    NoSteps(OVERTAKEN);
  }

  lemma FirstStates()
    ensures Enabled(START, BumpNew) && Enabled(Next(START, BumpNew), Fire(0))
    ensures var s2 := Next(Next(START, BumpNew), Fire(0));
            Enabled(s2, Send) && Enabled(Next(s2, Send), BumpStop) && Next(Next(s2, Send), BumpStop) == OVERTAKEN
  {
    var s2 := Next(Next(START, BumpNew), Fire(0));
    assert s2.armed == {};
  }

  lemma SecondHalf()
    ensures LegalRun(OVERTAKEN, [BumpDrain, BumpReset, Reset, BumpNew])
    ensures After(OVERTAKEN, [BumpDrain, BumpReset, Reset, BumpNew]).armed == {0, 1}
  {
    hide LegalRun, After;
    var s6 := Next(Next(OVERTAKEN, BumpDrain), BumpReset);
    UnrollTwo(OVERTAKEN, BumpDrain, BumpReset, [Reset, BumpNew]);
    UnrollTwo(s6, Reset, BumpNew, []);
    NoSteps(Next(Next(s6, Reset), BumpNew));
    assert [Reset, BumpNew] + [] == [Reset, BumpNew];
    assert [BumpDrain, BumpReset] + [Reset, BumpNew] == [BumpDrain, BumpReset, Reset, BumpNew];
  }

  lemma NoSteps(s: State)
    ensures LegalRun(s, []) && After(s, []) == s
  {
  }

  lemma UnrollTwo(s: State, a: Action, b: Action, rest: seq<Action>)
    requires Enabled(s, a) && Enabled(Next(s, a), b)
    ensures LegalRun(s, [a, b] + rest) <==> LegalRun(Next(Next(s, a), b), rest)
    ensures LegalRun(s, [a, b] + rest) ==> After(s, [a, b] + rest) == After(Next(Next(s, a), b), rest)
  {
    assert ([a, b] + rest)[1..] == [b] + rest;
    assert ([b] + rest)[1..] == rest;
  }

  lemma {:induction false} Concat(s: State, a: seq<Action>, b: seq<Action>)
    requires LegalRun(s, a) && LegalRun(After(s, a), b)
    ensures LegalRun(s, a + b) && After(s, a + b) == After(After(s, a), b)
    decreases |a|
  {
    if a == [] {
      assert a + b == b;
    } else {
      hide Next, Enabled;
      assert (a + b)[1..] == a[1..] + b;
      Concat(Next(s, a[0]), a[1..], b);
    }
  }
}
