/** The retry backoff of the fanout, per endpoint URL (internal/app/fanout/fanout.go). */
module Backoff {
  import opened Options
  import opened Domain

  type Url = string

  /** hostRetryState. */
  datatype Retry = Retry(lastFailure: Time, count: nat)

  /** One call of fireForPeerEvent for a URL: when it starts, whether a request would succeed, and when
      it would end. */
  datatype Try = Try(at: Time, ok: bool, done: Time)

  /** 1 shifted left by count. */
  function Shifted(count: nat): nat {
    if count == 0 then 1 else 2 * Shifted(count - 1)
  }

  predicate CanRetry(st: Option<Retry>, at: Time) {
    st.None? || (st.value.count < 3 && at - st.value.lastFailure >= Shifted(st.value.count) * SECOND)
  }

  function AfterTry(st: Option<Retry>, t: Try): Option<Retry> {
    if !CanRetry(st, t.at) then st
    else if t.ok then None
    else Some(Retry(t.done, if st.Some? then st.value.count + 1 else 1))
  }

  class Fanout {
    var failedHosts: map<Url, Retry>

    function StateOf(url: Url): Option<Retry>
      reads this
    {
      if url in failedHosts then Some(failedHosts[url]) else None
    }

    method HostCanRetry(url: Url, retryCount: nat, now: Time) returns (can: bool)
      ensures url in failedHosts && retryCount == failedHosts[url].count ==> can == CanRetry(StateOf(url), now)
      ensures url !in failedHosts ==> can
    {
      if url !in failedHosts {
        return true;
      }
      if retryCount >= 3 {
        return false;
      }
      return now - failedHosts[url].lastFailure >= Shifted(retryCount) * SECOND;
    }

    method MarkHostFailed(url: Url, now: Time)
      modifies this
      ensures var failures := if url in old(failedHosts) then old(failedHosts)[url].count else 0;
              failedHosts == old(failedHosts)[url := Retry(now, failures + 1)]
    {
      if url in failedHosts {
        failedHosts := failedHosts[url := Retry(now, failedHosts[url].count + 1)];
      } else {
        failedHosts := failedHosts[url := Retry(now, 1)];
      }
    }

    method ClearHostFailed(url: Url)
      modifies this
      ensures failedHosts == old(failedHosts) - {url}
    {
      failedHosts := failedHosts - {url};
    }

    /** One delivery to one URL; the state of no other URL changes. */
    method Deliver(url: Url, t: Try) returns (contacted: bool)
      modifies this
      ensures contacted == CanRetry(old(StateOf(url)), t.at)
      ensures StateOf(url) == AfterTry(old(StateOf(url)), t)
      ensures failedHosts - {url} == old(failedHosts) - {url}
    {
      var retryCount := if url in failedHosts then failedHosts[url].count else 0;
      contacted := HostCanRetry(url, retryCount, t.at);
      if contacted {
        if t.ok {
          ClearHostFailed(url);
        } else {
          MarkHostFailed(url, t.done);
        }
      }
    }
  }

  // ---------- whole histories ----------

  function StateAfter(tries: seq<Try>): Option<Retry> {
    if tries == [] then None else AfterTry(StateAfter(tries[..|tries| - 1]), tries[|tries| - 1])
  }

  predicate Contacted(tries: seq<Try>, i: nat)
    requires i < |tries|
  {
    CanRetry(StateAfter(tries[..i]), tries[i].at)
  }

  /** The failed requests since the last successful one, oldest first, as indices into the history. */
  function Streak(tries: seq<Try>): (r: seq<nat>)
    ensures forall k :: 0 <= k < |r| ==> r[k] < |tries|
  {
    if tries == [] then []
    else
      var front := Streak(tries[..|tries| - 1]);
      if !Contacted(tries, |tries| - 1) then front
      else if tries[|tries| - 1].ok then []
      else front + [|tries| - 1]
  }

  /** The stored retry state is the length of the failure streak and the end of its last request. */
  lemma {:induction false} StateIsStreak(tries: seq<Try>)
    ensures StateAfter(tries) == if Streak(tries) == [] then None
                                 else Some(Retry(tries[Streak(tries)[|Streak(tries)| - 1]].done, |Streak(tries)|))
  {
    if tries != [] {
      hide CanRetry;
      StateIsStreak(tries[..|tries| - 1]);
    }
  }

  /** A streak lists exactly the requests since the last successful one, all of them failed. */
  lemma {:induction false} StreakMembers(tries: seq<Try>, i: nat)
    requires i < |tries|
    ensures i in Streak(tries) <==>
            Contacted(tries, i) && forall j :: i <= j < |tries| && Contacted(tries, j) ==> !tries[j].ok
  {
    hide CanRetry, StateAfter;
    var n := |tries| - 1;
    var front := tries[..n];
    assert forall j :: 0 <= j < n ==> front[..j] == tries[..j];
    assert forall j :: 0 <= j < n ==> Contacted(front, j) == Contacted(tries, j);
    if i < n {
      StreakMembers(front, i);
    }
  }

  /** Delays in seconds before the second and the third request of a streak. */
  function Delay(n: nat): Time
    requires n == 1 || n == 2
  {
    if n == 1 then 2 * SECOND else 4 * SECOND
  }

  /** When a URL is contacted, from its streak alone: at once, after 2 s, after 4 s, then never. */
  lemma ContactedExactly(tries: seq<Try>, i: nat)
    requires i < |tries|
    ensures var streak := Streak(tries[..i]);
            Contacted(tries, i) <==>
            streak == [] || (|streak| <= 2 && tries[i].at >= tries[streak[|streak| - 1]].done + Delay(|streak|))
  {
    StateIsStreak(tries[..i]);
    assert Shifted(1) == 2 && Shifted(2) == 4;
  }

  predicate Spaced(tries: seq<Try>, streak: seq<nat>)
    requires forall k :: 0 <= k < |streak| ==> streak[k] < |tries|
    requires |streak| <= 3
  {
    forall k :: 0 < k < |streak| ==>
      streak[k - 1] < streak[k] && tries[streak[k]].at >= tries[streak[k - 1]].done + Delay(k)
  }

  /** A streak has at most three requests, each at least its delay after the previous one ended. */
  lemma {:induction false} StreakSpacing(tries: seq<Try>)
    ensures |Streak(tries)| <= 3 && Spaced(tries, Streak(tries))
  {
    if tries != [] {
      hide Contacted;
      var n := |tries| - 1;
      StreakSpacing(tries[..n]);
      ContactedExactly(tries, n);
    }
  }

  /** After three failures in a row the URL is never contacted again, however much time passes. */
  lemma {:induction false} SilentForever(tries: seq<Try>, more: seq<Try>)
    requires |Streak(tries)| == 3
    ensures Streak(tries + more) == Streak(tries)
    ensures forall i :: |tries| <= i < |tries + more| ==> !Contacted(tries + more, i)
    decreases |more|
  {
    if more == [] {
      assert tries + more == tries;
    } else {
      var all, front := tries + more, tries + more[..|more| - 1];
      SilentForever(tries, more[..|more| - 1]);
      assert all[..|all| - 1] == front;
      ContactedExactly(all, |all| - 1);
      hide CanRetry;
      forall i | |tries| <= i < |all| ensures !Contacted(all, i) {
        if i < |front| {
          assert front[..i] == all[..i] && !Contacted(front, i);
        }
      }
    }
  }

  function CountContacted(tries: seq<Try>): nat {
    if tries == [] then 0
    else CountContacted(tries[..|tries| - 1]) + if Contacted(tries, |tries| - 1) then 1 else 0
  }

  /** A host that never answers receives at most three requests in any history. */
  lemma {:induction false} AtMostThreeUnanswered(tries: seq<Try>)
    requires forall t <- tries :: !t.ok
    ensures CountContacted(tries) == |Streak(tries)| <= 3
  {
    StreakSpacing(tries);
    if tries != [] {
      AtMostThreeUnanswered(tries[..|tries| - 1]);
    }
  }
}
