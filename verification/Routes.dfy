/** The route-rule synchroniser (internal/app/route/routes.go) over the kernel rules of one address
    family. Every netlink call succeeds; the kernel lists its rules in any order. */
module Routes {
  const RT_TABLE_MAIN := 254
  const FIRST_RULE_PRIORITY := 32700

  datatype Rule = Rule(table: int, mark: nat, invert: bool, suppressPrefixlen: int, priority: int)

  /** What one managed interface wants for the family: routeRuleInfo. */
  datatype Wanted = Wanted(fwMark: nat, table: int, hasDefault: bool)

  predicate IsSuppress(r: Rule) {
    r.table == RT_TABLE_MAIN && r.suppressPrefixlen == 0
  }

  predicate Serves(r: Rule, w: Wanted) {
    w.fwMark == r.mark && w.table == r.table
  }

  function FwMarkRule(w: Wanted, priority: int): Rule {
    Rule(w.table, w.fwMark, true, -1, priority)
  }

  function SuppressRule(priority: int): Rule {
    Rule(RT_TABLE_MAIN, 0, false, 0, priority)
  }

  function SuppressRules(rules: set<Rule>): set<Rule> {
    set r <- rules | IsSuppress(r)
  }

  function Priorities(rules: set<Rule>): set<int> {
    set r <- rules :: r.priority
  }

  predicate HasDefault(wanted: seq<Wanted>) {
    exists w <- wanted :: w.hasDefault
  }

  predicate Qualifies(w: Wanted) {
    w.hasDefault && w.fwMark != 0 && w.table != RT_TABLE_MAIN
  }

  predicate NeedsSuppress(wanted: seq<Wanted>) {
    exists w <- wanted :: Qualifies(w)
  }

  predicate Served(rules: set<Rule>, w: Wanted) {
    exists r <- rules :: Serves(r, w)
  }

  /** Only possible for a pair that names the main table. */
  predicate ServedBySuppress(rules: set<Rule>, w: Wanted) {
    exists r <- rules :: Serves(r, w) && IsSuppress(r)
  }

  predicate OnePerPair(rules: set<Rule>) {
    forall r, x :: r in rules && x in rules && r.mark == x.mark && r.table == x.table ==> r == x
  }

  /** The list holds every rule of the set once. */
  ghost predicate Lists(l: seq<Rule>, rules: set<Rule>) {
    (forall r :: r in l <==> r in rules) && forall i, j :: 0 <= i < j < |l| ==> l[i] != l[j]
  }

  /** The free priority nearest to a start, upwards or downwards. */
  predicate NearestFree(start: int, step: int, used: set<int>, p: int)
    requires step == 1 || step == -1
  {
    && p !in used
    && (if step == 1 then start <= p && forall q :: start <= q < p ==> q in used
        else p <= start && forall q :: p < q <= start ==> q in used)
  }

  /** A run of used priorities is no longer than there are used priorities. */
  lemma {:induction false} UsedRun(used: set<int>, lo: int, hi: int)
    requires lo <= hi && forall q :: lo <= q < hi ==> q in used
    ensures hi - lo <= |used|
    decreases hi - lo
  {
    if lo < hi {
      assert hi - 1 in used;
      UsedRun(used - {hi - 1}, lo, hi - 1);
    }
  }

  /** The search stops within one probe more than there are used priorities. */
  lemma NearestFreeIsNear(start: int, step: int, used: set<int>, p: int)
    requires (step == 1 || step == -1) && NearestFree(start, step, used, p)
    ensures -|used| <= p - start <= |used|
  {
    if step == 1 {
      UsedRun(used, start, p);
    } else {
      UsedRun(used, p + 1, start + 1);
    }
  }

  function CountSuppress(l: seq<Rule>): nat {
    if l == [] then 0 else CountSuppress(l[..|l| - 1]) + if IsSuppress(l[|l| - 1]) then 1 else 0
  }

  /** The first n suppress rules of a listing. */
  ghost function FirstSuppress(l: seq<Rule>, n: nat): set<Rule> {
    if l == [] then {}
    else
      FirstSuppress(l[..|l| - 1], n) +
      if IsSuppress(l[|l| - 1]) && CountSuppress(l[..|l| - 1]) < n then {l[|l| - 1]} else {}
  }

  lemma FirstNone(l: seq<Rule>, n: nat)
    ensures CountSuppress(l[..0]) == 0 && FirstSuppress(l[..0], n) == {}
  {
  }

  lemma FirstOneMore(l: seq<Rule>, i: nat, n: nat)
    requires i < |l|
    ensures CountSuppress(l[..i + 1]) == CountSuppress(l[..i]) + if IsSuppress(l[i]) then 1 else 0
    ensures FirstSuppress(l[..i + 1], n) ==
            FirstSuppress(l[..i], n) + if IsSuppress(l[i]) && CountSuppress(l[..i]) < n then {l[i]} else {}
  {
    assert l[..i + 1][..i] == l[..i];
  }

  lemma {:induction false} FirstSize(l: seq<Rule>, n: nat)
    requires forall i, j :: 0 <= i < j < |l| ==> l[i] != l[j]
    ensures FirstSuppress(l, n) <= set r <- l | IsSuppress(r)
    ensures |FirstSuppress(l, n)| == Min(n, CountSuppress(l))
  {
    if l != [] {
      var front, last := l[..|l| - 1], l[|l| - 1];
      FirstSize(front, n);
      hide IsSuppress;
      assert last !in FirstSuppress(front, n);
    }
  }

  lemma FirstRemoved(l: seq<Rule>, was: set<Rule>, n: nat)
    requires Lists(l, was) && n <= CountSuppress(l)
    ensures FirstSuppress(l, n) <= SuppressRules(was)
    ensures |SuppressRules(was - FirstSuppress(l, n))| == CountSuppress(l) - n
    ensures n == 0 ==> FirstSuppress(l, n) == {}
  {
    hide CountSuppress, FirstSuppress, IsSuppress;
    CountListed(l, was);
    FirstSize(l, n);
    assert SuppressRules(was) == set r <- l | IsSuppress(r);
    assert SuppressRules(was - FirstSuppress(l, n)) == SuppressRules(was) - FirstSuppress(l, n);
  }

  lemma {:induction false} CountIsCardinality(l: seq<Rule>)
    requires forall i, j :: 0 <= i < j < |l| ==> l[i] != l[j]
    ensures CountSuppress(l) == |set r <- l | IsSuppress(r)|
  {
    if l != [] {
      var front, last := l[..|l| - 1], l[|l| - 1];
      CountIsCardinality(front);
      hide IsSuppress;
      var rest, all := set r <- front | IsSuppress(r), set r <- l | IsSuppress(r);
      assert last !in rest;
      assert forall r :: r in l <==> r in front || r == last;
      assert all == if IsSuppress(last) then rest + {last} else rest;
    }
  }

  lemma CountListed(l: seq<Rule>, rules: set<Rule>)
    requires Lists(l, rules)
    ensures CountSuppress(l) == |SuppressRules(rules)|
  {
    hide IsSuppress, CountSuppress;
    CountIsCardinality(l);
    assert SuppressRules(rules) == set r <- l | IsSuppress(r);
  }

  class RuleTable {
    var rules: set<Rule>
    const rulePrioOffset: int
    const ignoreMainDefaultRoute: bool

    constructor (rules: set<Rule>, rulePrioOffset: int, ignoreMainDefaultRoute: bool)
      ensures this.rules == rules && this.rulePrioOffset == rulePrioOffset
      ensures this.ignoreMainDefaultRoute == ignoreMainDefaultRoute
    {
      this.rules := rules;
      this.rulePrioOffset := rulePrioOffset;
      this.ignoreMainDefaultRoute := ignoreMainDefaultRoute;
    }

    method RuleList() returns (l: seq<Rule>)
      ensures Lists(l, rules)
    {
      l := [];
      var rest := rules;
      while rest != {}
        invariant rest <= rules && Lists(l, rules - rest)
      {
        var r :| r in rest;
        assert rules - (rest - {r}) == rules - rest + {r};
        l, rest := l + [r], rest - {r};
      }
      assert rules - {} == rules;
    }

    /** getRulePriority (downwards) and getMainRulePriority (upwards). */
    method FreePriority(existing: seq<Rule>, start: int, step: int, ghost used: set<int>) returns (prio: int)
      requires (step == 1 || step == -1) && forall p :: p in used <==> exists r <- existing :: r.priority == p
      ensures NearestFree(start, step, used, prio)
    {
      prio := start;
      while true
        invariant if step == 1 then start <= prio && forall q :: start <= q < prio ==> q in used
                  else prio <= start && forall q :: prio < q <= start ==> q in used
        invariant 0 <= (prio - start) * step <= |used|
        decreases |used| - (prio - start) * step
      {
        var isFresh := true;
        for i := 0 to |existing|
          invariant isFresh <==> forall j :: 0 <= j < i ==> existing[j].priority != prio
        {
          if existing[i].priority == prio {
            isFresh := false;
            break;
          }
        }
        if isFresh {
          return;
        }
        if step == 1 {
          UsedRun(used, start, prio + 1);
        } else {
          UsedRun(used, prio, start + 1);
        }
        prio := prio + step;
      }
    }

    /** Adds one rule per (mark, table) that no rule serves. */
    method SetFwMarkRules(wanted: seq<Wanted>)
      modifies this`rules
      ensures Marked(old(rules), rules, wanted) && HighestFree(old(rules), rules)
    {
      ghost var was := rules;
      for i := 0 to |wanted|
        invariant was <= rules && OnePerPair(rules - was) && HighestFree(was, rules)
        invariant forall j :: 0 <= j < i ==> Served(rules, wanted[j])
        invariant forall r <- rules - was :: AddedFor(r, was, wanted)
      {
        ghost var before := rules;
        AddIfMissing(wanted[i]);
        if before != rules {
          OneMoreAdded(was, before, rules, wanted, wanted[i]);
          StillHighest(was, before, rules, wanted[i]);
        }
        assert forall j :: 0 <= j < i ==> Served(before, wanted[j]) ==> Served(rules, wanted[j]);
      }
    }

    /** Unless some rule serves the pair, adds one at the highest free priority. */
    method AddIfMissing(w: Wanted)
      modifies this`rules
      ensures old(rules) <= rules && Served(rules, w)
      ensures if Served(old(rules), w) then rules == old(rules) else AddedOne(old(rules), rules, w)
    {
      var existing := RuleList();
      for k := 0 to |existing|
        invariant forall j :: 0 <= j < k ==> !Serves(existing[j], w)
      {
        if Serves(existing[k], w) {
          return;
        }
      }
      var prio := FreePriority(existing, FIRST_RULE_PRIORITY, -1, Priorities(rules));
      rules := rules + {FwMarkRule(w, prio)};
      assert Serves(FwMarkRule(w, prio), w);
    }

    /** Adds the suppress rule, at the lowest free priority, when it is needed and missing. */
    method SetMainRule(wanted: seq<Wanted>)
      modifies this`rules
      ensures MainSet(old(rules), rules, wanted, rulePrioOffset, ignoreMainDefaultRoute)
    {
      if ignoreMainDefaultRoute {
        return;
      }
      var shouldHaveMainRule := false;
      for i := 0 to |wanted|
        invariant !shouldHaveMainRule
        invariant forall j :: 0 <= j < i ==> !Qualifies(wanted[j])
      {
        if Qualifies(wanted[i]) {
          shouldHaveMainRule := true;
          break;
        }
      }
      assert shouldHaveMainRule <==> NeedsSuppress(wanted);
      if !shouldHaveMainRule {
        return;
      }
      var existing := RuleList();
      for i := 0 to |existing|
        invariant forall j :: 0 <= j < i ==> !IsSuppress(existing[j])
      {
        if IsSuppress(existing[i]) {
          assert existing[i] in SuppressRules(rules);
          return;
        }
      }
      assert SuppressRules(rules) == {};
      var prio := FreePriority(existing, rulePrioOffset, 1, Priorities(rules));
      rules := rules + {SuppressRule(prio)};
    }

    /** Removes suppress rules until one is left, or none when no wanted rule has a default route. */
    method CleanupMainRule(wanted: seq<Wanted>)
      modifies this`rules
      ensures Cleaned(old(rules), rules, wanted, ignoreMainDefaultRoute)
    {
      if ignoreMainDefaultRoute {
        return;
      }
      var existing := RuleList();
      var shouldHaveMainRule := exists w <- wanted :: w.hasDefault;
      var mainRules := 0;
      assert existing[..0] == [];
      for i := 0 to |existing|
        invariant rules == old(rules) && mainRules == CountSuppress(existing[..i])
      {
        FirstOneMore(existing, i, 0);
        if IsSuppress(existing[i]) {
          mainRules := mainRules + 1;
        }
      }
      assert existing[..|existing|] == existing;
      CountListed(existing, rules);
      var removalCount := if !shouldHaveMainRule then mainRules else if mainRules > 1 then mainRules - 1 else 0;
      RemoveSuppressRules(existing, removalCount);
    }

    /** Deletes the first n suppress rules of a listing. */
    method RemoveSuppressRules(existing: seq<Rule>, n: nat)
      requires Lists(existing, rules) && n <= CountSuppress(existing)
      modifies this`rules
      ensures rules <= old(rules) && forall r <- old(rules) :: r !in rules ==> IsSuppress(r)
      ensures |SuppressRules(rules)| == CountSuppress(existing) - n
      ensures n == 0 ==> rules == old(rules)
    {
      hide IsSuppress, CountSuppress, FirstSuppress;
      var removalCount := n;
      ghost var was := rules;
      FirstNone(existing, n);
      for i := 0 to |existing|
        invariant rules == was - FirstSuppress(existing[..i], n)
        invariant removalCount == n - Min(n, CountSuppress(existing[..i]))
      {
        FirstOneMore(existing, i, n);
        if IsSuppress(existing[i]) && removalCount > 0 {
          rules := rules - {existing[i]};
          removalCount := removalCount - 1;
        }
      }
      assert existing[..|existing|] == existing;
      FirstRemoved(existing, was, n);
    }

    /** The event for an interface that is gone: its rules go, all others stay. */
    method RemoveFwMarkRules(fwMark: nat, table: int)
      modifies this`rules
      ensures rules == set r <- old(rules) | !(r.mark == fwMark && r.table == table)
    {
      var existing := RuleList();
      ghost var was := rules;
      for i := 0 to |existing|
        invariant rules == set r <- was | !(r.mark == fwMark && r.table == table && r in existing[..i])
      {
        if fwMark == existing[i].mark && table == existing[i].table {
          rules := rules - {existing[i]};
        }
      }
    }

    /** One synchronisation of the family. */
    method SyncRouteRules(wanted: seq<Wanted>)
      modifies this`rules
      ensures Synced(old(rules), rules, wanted, rulePrioOffset, ignoreMainDefaultRoute)
    {
      hide Marked, MainSet, Cleaned;
      SetFwMarkRules(wanted);
      ghost var marked := rules;
      SetMainRule(wanted);
      ghost var completed := rules;
      CleanupMainRule(wanted);
      assert Passes(old(rules), marked, completed, rules, wanted, rulePrioOffset, ignoreMainDefaultRoute);
    }
  }

  // ---------- what the three passes do ----------

  predicate AddedOne(before: set<Rule>, after: set<Rule>, w: Wanted) {
    exists r <- after ::
      r == FwMarkRule(w, r.priority) && after == before + {r} &&
      NearestFree(FIRST_RULE_PRIORITY, -1, Priorities(before), r.priority)
  }

  /** A rule the synchroniser adds: for a wanted pair that nothing served before, at a new priority. */
  predicate AddedFor(r: Rule, before: set<Rule>, wanted: seq<Wanted>) {
    exists w <- wanted :: !Served(before, w) && r == FwMarkRule(w, r.priority) && r.priority !in Priorities(before)
  }

  /** The rules added took the highest free priorities from 32700 down. */
  ghost predicate HighestFree(before: set<Rule>, after: set<Rule>) {
    forall r <- after - before :: r.priority <= 32700 && forall q :: r.priority < q <= 32700 ==> q in Priorities(after)
  }

  lemma StillHighest(was: set<Rule>, before: set<Rule>, after: set<Rule>, w: Wanted)
    requires HighestFree(was, before) && AddedOne(before, after, w)
    ensures HighestFree(was, after)
  {
    var n :| n in after && after == before + {n} &&
             NearestFree(FIRST_RULE_PRIORITY, -1, Priorities(before), n.priority);
    assert Priorities(before) <= Priorities(after);
    assert forall r <- after - was :: r == n || r in before - was;
  }

  predicate Marked(before: set<Rule>, after: set<Rule>, wanted: seq<Wanted>) {
    && before <= after && OnePerPair(after - before)
    && (forall w <- wanted :: Served(after, w))
    && forall r <- after - before :: AddedFor(r, before, wanted)
  }

  ghost predicate MainSet(before: set<Rule>, after: set<Rule>, wanted: seq<Wanted>, offset: int, ignore: bool) {
    if !ignore && NeedsSuppress(wanted) && SuppressRules(before) == {}
    then exists p :: NearestFree(offset, 1, Priorities(before), p) && after == before + {SuppressRule(p)}
    else after == before
  }

  predicate Cleaned(before: set<Rule>, after: set<Rule>, wanted: seq<Wanted>, ignore: bool) {
    && after <= before && (forall r <- before - after :: IsSuppress(r))
    && |SuppressRules(after)| == if ignore then |SuppressRules(before)|
                                 else if HasDefault(wanted) then Min(1, |SuppressRules(before)|) else 0
  }

  ghost predicate Passes(before: set<Rule>, marked: set<Rule>, completed: set<Rule>, after: set<Rule>,
                         wanted: seq<Wanted>, offset: int, ignore: bool) {
    && Marked(before, marked, wanted)
    && MainSet(marked, completed, wanted, offset, ignore)
    && Cleaned(completed, after, wanted, ignore)
  }

  ghost predicate Synced(before: set<Rule>, after: set<Rule>, wanted: seq<Wanted>, offset: int, ignore: bool) {
    exists marked, completed ::
      Passes(before, marked, completed, after, wanted, offset, ignore)
  }

  lemma OneMoreAdded(was: set<Rule>, before: set<Rule>, after: set<Rule>, wanted: seq<Wanted>, w: Wanted)
    requires was <= before && OnePerPair(before - was) && forall r <- before - was :: AddedFor(r, was, wanted)
    requires w in wanted && !Served(before, w) && AddedOne(before, after, w)
    ensures was <= after && OnePerPair(after - was) && forall r <- after - was :: AddedFor(r, was, wanted)
  {
    var n :| n in after && n == FwMarkRule(w, n.priority) && after == before + {n} && n.priority !in Priorities(before);
    assert forall r <- before :: !Serves(r, w);
    assert Priorities(was) <= Priorities(before);
    assert AddedFor(n, was, wanted);
  }

  // ---------- what a synchronisation achieves ----------

  /** The packets a rule looks up in its table: those with its mark, every packet when it has no mark,
      and the opposite when it is inverted. */
  predicate Selects(r: Rule, mark: nat) {
    (r.mark == 0 || r.mark == mark) != r.invert
  }

  /** Every added rule sends exactly the packets that do not carry the mark of a wanted pair into its
      table, whatever their route there, or it is a suppress rule: every packet, by the main table,
      but not by a default route. A pair without a mark gets a rule that selects nothing. */
  lemma AddedRulesSelect(before: set<Rule>, after: set<Rule>, wanted: seq<Wanted>, offset: int, ignore: bool, r: Rule)
    requires Synced(before, after, wanted, offset, ignore) && r in after && r !in before
    ensures || (exists w <- wanted ::
                  r.table == w.table && r.suppressPrefixlen == -1 &&
                  forall m: nat :: Selects(r, m) <==> w.fwMark != 0 && m != w.fwMark)
            || (r.table == 254 && r.suppressPrefixlen == 0 && forall m: nat :: Selects(r, m))
  {
    var marked, completed :|
      Passes(before, marked, completed, after, wanted, offset, ignore);
    assert r in completed;
    if r in marked {
      assert r in marked - before && AddedFor(r, before, wanted);
      var w :| w in wanted && r == FwMarkRule(w, r.priority);
      assert FwMarkRule(w, r.priority).invert;
    }
  }

  function Min(a: int, b: int): int {
    if a < b then a else b
  }

  /** The number of suppress rules after a synchronisation, for every input: one exactly when some
      default route qualifies; none without default routes. */
  function SuppressCount(before: nat, wanted: seq<Wanted>, ignore: bool): nat {
    if ignore then before
    else if NeedsSuppress(wanted) then 1
    else if HasDefault(wanted) then Min(1, before)
    else 0
  }

  /** Nothing to do: all pairs are served and the suppress rules are as many as they should be. */
  predicate Synchronised(rules: set<Rule>, wanted: seq<Wanted>, ignore: bool) {
    && (forall w <- wanted :: Served(rules, w))
    && |SuppressRules(rules)| == SuppressCount(|SuppressRules(rules)|, wanted, ignore)
  }

  /** Foreign rules stay, and what is new is a suppress rule or serves a pair nothing served before. */
  lemma OtherRulesStay(before: set<Rule>, after: set<Rule>, wanted: seq<Wanted>, offset: int, ignore: bool)
    requires Synced(before, after, wanted, offset, ignore)
    ensures forall r <- before :: r.table != 254 || r.suppressPrefixlen != 0 ==> r in after
    ensures forall r <- after :: r in before || IsSuppress(r) || AddedFor(r, before, wanted)
  {
    var marked, completed :|
      Passes(before, marked, completed, after, wanted, offset, ignore);
    forall r | r in before && !IsSuppress(r) ensures r in after {
      assert r in completed;
    }
    forall r | r in after ensures r in before || IsSuppress(r) || AddedFor(r, before, wanted) {
      assert r in completed;
    }
  }

  /** Every wanted pair is served afterwards, unless a suppress rule stood in for it. */
  lemma PairsAreServed(before: set<Rule>, after: set<Rule>, wanted: seq<Wanted>, offset: int, ignore: bool, w: Wanted)
    requires Synced(before, after, wanted, offset, ignore) && w in wanted && !ServedBySuppress(before, w)
    ensures exists r <- after :: r.mark == w.fwMark && r.table == w.table
  {
    var marked, completed :|
      Passes(before, marked, completed, after, wanted, offset, ignore);
    assert Served(marked, w);
    var r :| r in marked && Serves(r, w);
    assert r in before || AddedFor(r, before, wanted);
    assert r in completed && !IsSuppress(r);
  }

  lemma MarkingAddsNoSuppress(before: set<Rule>, after: set<Rule>, wanted: seq<Wanted>)
    requires Marked(before, after, wanted)
    ensures SuppressRules(after) == SuppressRules(before)
  {
    forall r | r in after && IsSuppress(r) ensures r in before {
      assert !AddedFor(r, before, wanted);
    }
  }

  /** The number of suppress rules is exact for every input. */
  lemma SuppressRulesExact(before: set<Rule>, after: set<Rule>, wanted: seq<Wanted>, offset: int, ignore: bool)
    requires Synced(before, after, wanted, offset, ignore)
    ensures |SuppressRules(after)| == SuppressCount(|SuppressRules(before)|, wanted, ignore)
  {
    var marked, completed :|
      Passes(before, marked, completed, after, wanted, offset, ignore);
    MarkingAddsNoSuppress(before, marked, wanted);
    if completed != marked {
      var p :| completed == marked + {SuppressRule(p)};
      assert SuppressRules(completed) == {SuppressRule(p)};
    }
    if HasDefault(wanted) && NeedsSuppress(wanted) && !ignore {
      assert SuppressRules(completed) != {};
      var r :| r in SuppressRules(completed);
      assert |SuppressRules(completed)| >= |{r}| by { Smaller({r}, SuppressRules(completed)); }
    }
  }

  /** With a default route in a table of its own there is exactly one rule of the main table that
      suppresses default routes. */
  lemma OneSuppressRule(before: set<Rule>, after: set<Rule>, wanted: seq<Wanted>, offset: int, w: Wanted)
    requires Synced(before, after, wanted, offset, false)
    requires w in wanted && w.hasDefault && w.fwMark != 0 && w.table != 254
    ensures exists r <- after :: r.table == 254 && r.suppressPrefixlen == 0 &&
              forall x <- after :: x.table == 254 && x.suppressPrefixlen == 0 ==> x == r
  {
    assert Qualifies(w);
    assert |SuppressRules(after)| == 1 by {
      SuppressRulesExact(before, after, wanted, offset, false);
    }
    hide Synced, NeedsSuppress, HasDefault, Qualifies;
    OnlyOne(SuppressRules(after));
    var r :| SuppressRules(after) == {r};
    assert r in SuppressRules(after);
    forall x | x in after && x.table == 254 && x.suppressPrefixlen == 0 ensures x == r {
      assert x in SuppressRules(after);
    }
  }

  /** Without default routes there is none. */
  lemma NoSuppressRule(before: set<Rule>, after: set<Rule>, wanted: seq<Wanted>, offset: int)
    requires Synced(before, after, wanted, offset, false) && forall w <- wanted :: !w.hasDefault
    ensures forall r <- after :: r.table != 254 || r.suppressPrefixlen != 0
  {
    assert |SuppressRules(after)| == 0 by {
      SuppressRulesExact(before, after, wanted, offset, false);
    }
    hide Synced;
    forall r | r in after && IsSuppress(r) ensures r in SuppressRules(after) {
    }
  }

  /** None is added unless some pair with a mark and a table of its own has a default route. */
  lemma NoSuppressAdded(before: set<Rule>, after: set<Rule>, wanted: seq<Wanted>, offset: int, ignore: bool, r: Rule)
    requires Synced(before, after, wanted, offset, ignore) && r in after && r.table == 254 && r.suppressPrefixlen == 0
    requires ignore || forall w <- wanted :: !w.hasDefault || w.fwMark == 0 || w.table == 254
    ensures r in before
  {
    var marked, completed :|
      Passes(before, marked, completed, after, wanted, offset, ignore);
    MarkingAddsNoSuppress(before, marked, wanted);
    assert completed == marked && r in SuppressRules(marked);
  }

  lemma OnlyOne<T>(a: set<T>)
    requires |a| == 1
    ensures exists x :: a == {x}
  {
    var x :| x in a;
    assert a == {x} + (a - {x});
  }

  lemma {:induction false} Smaller<T>(a: set<T>, b: set<T>)
    requires a <= b
    ensures |a| <= |b|
    ensures |a| == |b| ==> a == b
  {
    if x :| x in a {
      Smaller(a - {x}, b - {x});
      assert a == (a - {x}) + {x} && b == (b - {x}) + {x};
    } else if |a| == |b| {
      assert b == {};
    }
  }

  /** A synchronised family is left alone, and one synchronisation gets there: a second changes nothing. */
  lemma SecondSyncIdle(before: set<Rule>, after: set<Rule>, again: set<Rule>, wanted: seq<Wanted>, offset: int,
                       ignore: bool)
    requires Synced(before, after, wanted, offset, ignore) && Synced(after, again, wanted, offset, ignore)
    requires forall w <- wanted :: !ServedBySuppress(before, w)
    ensures Synchronised(after, wanted, ignore) && again == after
  {
    forall w | w in wanted ensures Served(after, w) {
      PairsAreServed(before, after, wanted, offset, ignore, w);
    }
    SuppressRulesExact(before, after, wanted, offset, ignore);
    SynchronisedStays(after, again, wanted, offset, ignore);
  }

  lemma NothingMarked(before: set<Rule>, after: set<Rule>, wanted: seq<Wanted>)
    requires Marked(before, after, wanted) && forall w <- wanted :: Served(before, w)
    ensures after == before
  {
    assert forall r <- after - before :: AddedFor(r, before, wanted);
    assert forall r :: !AddedFor(r, before, wanted);
    assert after == before + (after - before);
  }

  lemma SynchronisedStays(before: set<Rule>, after: set<Rule>, wanted: seq<Wanted>, offset: int, ignore: bool)
    requires Synchronised(before, wanted, ignore) && Synced(before, after, wanted, offset, ignore)
    ensures after == before
  {
    var marked, completed :|
      Passes(before, marked, completed, after, wanted, offset, ignore);
    NothingMarked(before, marked, wanted);
    assert SuppressRules(before) == {} ==> |SuppressRules(before)| == 0;
    SuppressRulesExact(before, after, wanted, offset, ignore);
    Smaller(SuppressRules(after), SuppressRules(before));
    assert forall r <- before :: r in after || r in SuppressRules(before);
  }
}
