/**
 The five tries of one pending sign-in, under requests that interleave at every
 call to the store (src/accounts/mfa.rs, src/accounts/store/sqlite.rs). A
 request takes a try, then has its code checked; the row of the sign-in may be
 deleted at any time, by a request that ends it or by anything else.
 */
module Tries {
  import opened Wrappers
  import opened SignIn

  /** The count in the row while it is there, and the tries taken by requests: still checking, and checked. */
  datatype State = State(row: Option<nat>, checking: multiset<nat>, checked: multiset<nat>)

  datatype Event =
    | Take
    | Wrong(tries: nat)    // deletes the row on the last try
    | Right(tries: nat)    // deletes the row: the sign-in is finished
    | Fails(tries: nat)    // the code could not be checked
    | Delete               // expired, or ended from elsewhere

  /** Just stored, with a token nobody had. */
  const Start := State(Some(0), multiset{}, multiset{})

  predicate Enabled(s: State, e: Event) {
    match e
    case Take => true
    case Wrong(n) => n in s.checking
    case Right(n) => n in s.checking
    case Fails(n) => n in s.checking
    case Delete => true
  }

  function Next(s: State, e: Event): State
    requires Enabled(s, e)
  {
    match e
    case Take =>
      if s.row.Some? && s.row.value < MAX_FAILURES_PER_PENDING then
        State(Some(s.row.value + 1), s.checking + multiset{s.row.value + 1}, s.checked)
      else s.(row := None)
    case Wrong(n) =>
      State(if n >= MAX_FAILURES_PER_PENDING then None else s.row, s.checking - multiset{n}, s.checked + multiset{n})
    case Right(n) => State(None, s.checking - multiset{n}, s.checked + multiset{n})
    case Fails(n) => s.(checking := s.checking - multiset{n}, checked := s.checked + multiset{n})
    case Delete => s.(row := None)
  }

  ghost predicate Steps(s: State, s': State) {
    exists e :: Enabled(s, e) && s' == Next(s, e)
  }

  ghost predicate IsRun(trace: seq<State>) {
    && trace != [] && trace[0] == Start
    && forall i | 0 <= i < |trace| - 1 :: Steps(trace[i], trace[i + 1])
  }

  ghost predicate Reachable(s: State) {
    exists trace :: IsRun(trace) && trace[|trace| - 1] == s
  }

  /** Tries are numbered from one, each taken once, and as far as the row counts. */
  ghost predicate Inv(s: State) {
    && (s.row.Some? ==> s.row.value <= MAX_FAILURES_PER_PENDING)
    && forall n: nat :: (s.checking + s.checked)[n] <= if 1 <= n <= Taken(s) then 1 else 0
  }

  function Taken(s: State): nat {
    if s.row.Some? then s.row.value else MAX_FAILURES_PER_PENDING
  }

  lemma NextKeeps(s: State, e: Event)
    requires Inv(s) && Enabled(s, e)
    ensures Inv(Next(s, e))
  {
    var s' := Next(s, e);
    forall n: nat ensures (s'.checking + s'.checked)[n] <= if 1 <= n <= Taken(s') then 1 else 0 {
      assert (s.checking + s.checked)[n] <= if 1 <= n <= Taken(s) then 1 else 0;
    }
  }

  lemma {:induction false} RunsKeep(trace: seq<State>)
    requires IsRun(trace)
    ensures Inv(trace[|trace| - 1])
  {
    var n := |trace| - 1;
    if n > 0 {
      RunsKeep(trace[..n]);
      assert Steps(trace[n - 1], trace[n]);
      var e :| Enabled(trace[n - 1], e) && trace[n] == Next(trace[n - 1], e);
      NextKeeps(trace[n - 1], e);
    }
  }

  /** Numbers up to `most`, each at most once, are no more than `most`. */
  lemma {:induction false} FewNumbers(m: multiset<nat>, most: nat)
    requires forall n: nat :: m[n] <= if 1 <= n <= most then 1 else 0
    ensures |m| <= most
  {
    if most == 0 {
      assert forall n: nat :: m[n] == 0;
      assert m == multiset{};
    } else {
      var rest := m[most := 0];
      FewNumbers(rest, most - 1);
      assert m == rest + multiset{most}[most := m[most]];
    }
  }

  /** However requests interleave, no more than five codes are ever checked for one pending sign-in, each on its own try. */
  lemma FiveCodesAtMost(s: State)
    requires Reachable(s)
    ensures |s.checking + s.checked| <= 5
    ensures forall n: nat :: (s.checking + s.checked)[n] <= 1
  {
    var trace :| IsRun(trace) && trace[|trace| - 1] == s;
    RunsKeep(trace);
    FewNumbers(s.checking + s.checked, MAX_FAILURES_PER_PENDING);
  }

  /** A request has its code checked exactly while the row is there with fewer than five tries had; else the row goes. */
  lemma TriesAreHad(s: State)
    ensures Next(s, Take).checking == s.checking + (if s.row.Some? && s.row.value < 5 then multiset{s.row.value + 1} else multiset{})
    ensures Next(s, Take).row == if s.row.Some? && s.row.value < 5 then Some(s.row.value + 1) else None
  {
  }

  /** What ends the sign-in: a right code, a fifth wrong one, or anything that deletes it; over, no more codes are checked. */
  lemma WhatEndsIt(s: State, e: Event)
    requires Enabled(s, e)
    ensures Next(s, e).row == None <==>
            || s.row == None || e.Right? || e == Delete
            || (e.Wrong? && e.tries >= 5)
            || (e == Take && s.row.value >= 5)
    ensures s.row == None ==> Next(s, e).checking + Next(s, e).checked <= s.checking + s.checked
    ensures e.Wrong? || e.Right? || e.Fails? ==>
              Next(s, e).checked == s.checked + multiset{e.tries} && Next(s, e).checking == s.checking - multiset{e.tries}
  {
  }

  /** All five are had: the run in which one request after another is wrong. */
  lemma {:induction false} FiveAreReached(n: nat)
    requires n <= 5
    ensures exists s :: Reachable(s) && |s.checked| == n && s.checking == multiset{} && (n < 5 ==> s.row == Some(n))
  {
    if n == 0 {
      assert IsRun([Start]) && [Start][0] == Start;
    } else {
      FiveAreReached(n - 1);
      var s :| Reachable(s) && |s.checked| == n - 1 && s.checking == multiset{} && (n - 1 < 5 ==> s.row == Some(n - 1));
      OneMore(s, Take);
      var taken := Next(s, Take);
      OneMore(taken, Wrong(n));
      assert taken.checking - multiset{n} == multiset{};
    }
  }

  lemma OneMore(s: State, e: Event)
    requires Reachable(s) && Enabled(s, e)
    ensures Reachable(Next(s, e))
  {
    var trace :| IsRun(trace) && trace[|trace| - 1] == s;
    var longer := trace + [Next(s, e)];
    assert Steps(s, Next(s, e));
    assert IsRun(longer) && longer[|longer| - 1] == Next(s, e);
  }
}
