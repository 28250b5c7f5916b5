/**
 Codes from an authenticator app, each spent once (RFC 6238, section 5.2), with
 requests that interleave between reading the secret and spending the step
 (src/accounts/mfa.rs, src/accounts/store/sqlite.rs).

 `Hotp` is what a phone shows for a secret at a step; nothing is assumed of it.
 */
module Totp {
  import opened Wrappers

  const STEP: nat := 30

  type Hotp = (string, nat) -> string

  /** The current step or one either side. */
  predicate Near(step: nat, clock: nat) {
    step <= clock / STEP + 1 && clock / STEP <= step + 1
  }

  /** The first of the three steps, later than `last`, whose code this is. */
  function MatchingStep(hotp: Hotp, secret: string, code: string, now: nat, last: nat): (step: Option<nat>)
    ensures step.Some? ==>
              && step.value > last && Near(step.value, now) && hotp(secret, step.value) == code
              && forall k: nat | last < k < step.value && Near(k, now) :: hotp(secret, k) != code
    ensures step.None? ==> forall k: nat | last < k && Near(k, now) :: hotp(secret, k) != code
  {
    var current := now / STEP;
    var before := if current == 0 then 0 else current - 1;
    if before > last && hotp(secret, before) == code then Some(before)
    else if current > last && hotp(secret, current) == code then Some(current)
    else if current + 1 > last && hotp(secret, current + 1) == code then Some(current + 1)
    else None
  }

  /** An account's secret; `id` tells one secret of the account from the next. */
  datatype SecretRow = SecretRow(id: nat, secret: string, enabled: bool, lastStep: nat)

  /** A request between reading the secret and spending the step it matched. */
  datatype Check = Check(row: nat, secret: string, code: string, step: nat, clock: nat)

  /** A code that was accepted, and the row whose step it spent. */
  datatype Accepted = Accepted(into: nat, check: Check)

  datatype State = State(row: Option<SecretRow>, nextId: nat, checks: multiset<Check>, accepted: seq<Accepted>)

  datatype Event =
    | Begin(secret: string)
    | Enable
    | Cancel
    | Remove
    | Read(code: string, clock: nat)
    | Advance(check: Check)

  const Start := State(None, 0, multiset{}, [])

  /** With `careful`, a step is spent only on the row it was checked against. The store does not ask. */
  predicate Enabled(s: State, e: Event, careful: bool) {
    e.Advance? ==> e.check in s.checks && (careful && s.row.Some? ==> s.row.value.id == e.check.row)
  }

  function Next(hotp: Hotp, s: State, e: Event): State
    requires Enabled(s, e, false)
  {
    match e
    case Begin(secret) =>
      if s.row.Some? && s.row.value.enabled then s
      else s.(row := Some(SecretRow(s.nextId, secret, false, 0)), nextId := s.nextId + 1)
    case Enable => if s.row.Some? then s.(row := Some(s.row.value.(enabled := true))) else s
    case Cancel => if s.row.Some? && !s.row.value.enabled then s.(row := None) else s
    case Remove => s.(row := None)
    case Read(code, clock) =>
      if s.row.None? then s else
      var step := MatchingStep(hotp, s.row.value.secret, code, clock, s.row.value.lastStep);
      if step.None? then s
      else s.(checks := s.checks + multiset{Check(s.row.value.id, s.row.value.secret, code, step.value, clock)})
    case Advance(check) =>
      var s' := s.(checks := s.checks - multiset{check});
      if s.row.Some? && s.row.value.lastStep < check.step then
        s'.(row := Some(s.row.value.(lastStep := check.step)), accepted := s.accepted + [Accepted(s.row.value.id, check)])
      else s'
  }

  ghost predicate Steps(hotp: Hotp, s: State, s': State, careful: bool) {
    exists e :: Enabled(s, e, careful) && s' == Next(hotp, s, e)
  }

  ghost predicate IsRun(hotp: Hotp, trace: seq<State>, careful: bool) {
    && trace != [] && trace[0] == Start
    && forall i | 0 <= i < |trace| - 1 :: Steps(hotp, trace[i], trace[i + 1], careful)
  }

  ghost predicate Reachable(hotp: Hotp, s: State, careful: bool) {
    exists trace :: IsRun(hotp, trace, careful) && trace[|trace| - 1] == s
  }

  // --- one step, once ---

  /** The check was made against a code its secret shows, within a step of its clock. */
  ghost predicate Sound(hotp: Hotp, check: Check) {
    Near(check.step, check.clock) && hotp(check.secret, check.step) == check.code
  }

  /** In the order they were accepted, the steps one row spent go up. */
  ghost predicate StrictlyUp(accepted: seq<Accepted>) {
    forall i, j | 0 <= i < j < |accepted| && accepted[i].into == accepted[j].into ::
      accepted[i].check.step < accepted[j].check.step
  }

  ghost predicate Inv(hotp: Hotp, s: State) {
    && (forall c <- s.checks :: Sound(hotp, c) && c.row < s.nextId)
    && (forall a <- s.accepted :: Sound(hotp, a.check) && a.into < s.nextId)
    && (s.row.Some? ==> s.row.value.id < s.nextId)
    && (s.row.Some? ==> forall a <- s.accepted | a.into == s.row.value.id :: a.check.step <= s.row.value.lastStep)
    && StrictlyUp(s.accepted)
  }

  /** Every step was spent on the row it was checked against. */
  ghost predicate SpentWhereChecked(s: State) {
    forall a <- s.accepted :: a.into == a.check.row
  }

  lemma {:induction false} RunsKeep(hotp: Hotp, trace: seq<State>, careful: bool)
    requires IsRun(hotp, trace, careful)
    ensures Inv(hotp, trace[|trace| - 1])
    ensures careful ==> SpentWhereChecked(trace[|trace| - 1])
  {
    var n := |trace| - 1;
    if n > 0 {
      RunsKeep(hotp, trace[..n], careful);
      assert Steps(hotp, trace[n - 1], trace[n], careful);
      var e :| Enabled(trace[n - 1], e, careful) && trace[n] == Next(hotp, trace[n - 1], e);
      NextKeeps(hotp, trace[n - 1], e);
      CarefulKeeps(hotp, trace[n - 1], e, careful);
    }
  }

  lemma CarefulKeeps(hotp: Hotp, s: State, e: Event, careful: bool)
    requires Enabled(s, e, careful) && (careful ==> SpentWhereChecked(s))
    ensures careful ==> SpentWhereChecked(Next(hotp, s, e))
  {
  }

  lemma NextKeeps(hotp: Hotp, s: State, e: Event)
    requires Inv(hotp, s) && Enabled(s, e, false)
    ensures Inv(hotp, Next(hotp, s, e))
  {
    if e.Advance? {
      AdvanceKeeps(hotp, s, e.check);
    }
  }

  lemma AdvanceKeeps(hotp: Hotp, s: State, check: Check)
    requires Inv(hotp, s) && Enabled(s, Advance(check), false)
    ensures Inv(hotp, Next(hotp, s, Advance(check)))
  {
    if s.row.Some? && s.row.value.lastStep < check.step {
      UpWithOneMore(s.accepted, Accepted(s.row.value.id, check), s.row.value.lastStep);
    }
  }

  /** What is on stays, the same row with the same secret, its last step never lower, until it is removed. */
  lemma WhatIsOnStays(hotp: Hotp, s: State, e: Event)
    requires Enabled(s, e, false) && s.row.Some? && s.row.value.enabled
    ensures var (row, row') := (s.row.value, Next(hotp, s, e).row);
            && (row'.None? <==> e == Remove)
            && (row'.Some? ==> row'.value == row.(lastStep := row'.value.lastStep) && row.lastStep <= row'.value.lastStep)
  {
  }

  /**
   What is not on: another setup takes its place, a row of its own with no step spent;
   turned on it is the same row; cancelled or removed it is gone; and no check changes
   more than its last step.
   */
  lemma WhatIsNotOn(hotp: Hotp, s: State, e: Event)
    requires Enabled(s, e, false) && !(s.row.Some? && s.row.value.enabled)
    ensures var row' := Next(hotp, s, e).row;
            match e
            case Begin(secret) => row' == Some(SecretRow(s.nextId, secret, false, 0)) && Next(hotp, s, e).nextId > s.nextId
            case Enable => if s.row.None? then row' == None else row' == Some(s.row.value.(enabled := true))
            case Cancel => row' == None
            case Remove => row' == None
            case Read(_, _) => row' == s.row
            case Advance(_) =>
              if s.row.None? then row' == None
              else row'.Some? && row'.value == s.row.value.(lastStep := row'.value.lastStep) && s.row.value.lastStep <= row'.value.lastStep
  {
  }

  lemma UpWithOneMore(accepted: seq<Accepted>, a: Accepted, lastStep: nat)
    requires StrictlyUp(accepted) && lastStep < a.check.step
    requires forall b <- accepted | b.into == a.into :: b.check.step <= lastStep
    ensures StrictlyUp(accepted + [a])
  {
    forall i | 0 <= i < |accepted| && accepted[i].into == a.into ensures accepted[i].check.step < a.check.step {
      assert accepted[i] in accepted;
    }
  }

  /**
   Over every interleaving, the steps accepted for one secret go strictly up in
   the order they were accepted, so none is accepted twice, and each is within
   one step of the clock its code was checked at.
   */
  lemma StepsAreSpentOnce(hotp: Hotp, s: State)
    requires Reachable(hotp, s, false)
    ensures StrictlyUp(s.accepted)
    ensures forall a <- s.accepted ::
              && hotp(a.check.secret, a.check.step) == a.check.code
              && -1 <= a.check.step - a.check.clock / 30 <= 1
  {
    var trace :| IsRun(hotp, trace, false) && trace[|trace| - 1] == s;
    RunsKeep(hotp, trace, false);
  }

  // --- how many codes in how long ---

  /** The steps row `id` spent on codes checked with clocks in [t1, t2], in order. */
  function SpentBetween(accepted: seq<Accepted>, id: nat, t1: nat, t2: nat): (steps: seq<nat>)
    ensures forall k <- steps :: exists a <- accepted :: a.into == id && a.check.step == k && t1 <= a.check.clock <= t2
  {
    if accepted == [] then [] else
    var a := accepted[|accepted| - 1];
    assert accepted == accepted[..|accepted| - 1] + [a];
    var before := SpentBetween(accepted[..|accepted| - 1], id, t1, t2);
    if a.into == id && t1 <= a.check.clock <= t2 then before + [a.check.step] else before
  }

  lemma {:induction false} SpentBetweenGoesUp(accepted: seq<Accepted>, id: nat, t1: nat, t2: nat)
    requires StrictlyUp(accepted)
    ensures forall i, j | 0 <= i < j < |SpentBetween(accepted, id, t1, t2)| ::
              SpentBetween(accepted, id, t1, t2)[i] < SpentBetween(accepted, id, t1, t2)[j]
  {
    if accepted != [] {
      var rest := accepted[..|accepted| - 1];
      var a := accepted[|accepted| - 1];
      SpentBetweenGoesUp(rest, id, t1, t2);
      var before := SpentBetween(rest, id, t1, t2);
      forall i | 0 <= i < |before| && a.into == id ensures before[i] < a.check.step {
        assert before[i] in before;
        var b :| b in rest && b.into == id && b.check.step == before[i];
        var k :| 0 <= k < |rest| && rest[k] == b;
      }
    }
  }

  /** Numbers that go strictly up inside an interval are no more than it holds. */
  lemma {:induction false} GoingUpFits(steps: seq<nat>, lo: int, hi: int)
    requires forall i, j | 0 <= i < j < |steps| :: steps[i] < steps[j]
    requires forall k <- steps :: lo <= k <= hi
    requires lo <= hi + 1
    ensures |steps| <= hi - lo + 1
  {
    if steps != [] {
      var last: int, rest := steps[|steps| - 1], steps[..|steps| - 1];
      assert last in steps;
      forall k | k in rest ensures lo <= k <= last - 1 {
        var i :| 0 <= i < |rest| && rest[i] == k;
        assert steps[i] in steps;
      }
      GoingUpFits(rest, lo, last - 1);
    }
  }

  /** So codes checked between two clocks are accepted at most once a step, and three over. */
  lemma FewAcceptedBetween(hotp: Hotp, s: State, id: nat, t1: nat, t2: nat)
    requires Reachable(hotp, s, false) && t1 <= t2
    ensures |SpentBetween(s.accepted, id, t1, t2)| <= t2 / 30 - t1 / 30 + 3
  {
    StepsAreSpentOnce(hotp, s);
    var steps := SpentBetween(s.accepted, id, t1, t2);
    SpentBetweenGoesUp(s.accepted, id, t1, t2);
    forall k <- steps ensures t1 / STEP - 1 <= k <= t2 / STEP + 1 {
      var a :| a in s.accepted && a.check.step == k && t1 <= a.check.clock <= t2;
    }
    GoingUpFits(steps, t1 / STEP - 1, t2 / STEP + 1);
  }

  // --- a secret that is replaced while a code is being checked ---

  /** Counted by the secret a code was checked against, rather than by the row that keeps the step. */
  ghost predicate OncePerSecret(accepted: seq<Accepted>) {
    forall i, j | 0 <= i < j < |accepted| && accepted[i].check.row == accepted[j].check.row ::
      accepted[i].check.step < accepted[j].check.step
  }

  /** Rows are numbered as they come, and a step is spent on the row checked or on a later one. */
  ghost predicate RowsInTurn(s: State) {
    && (s.row.Some? ==> s.row.value.id + 1 == s.nextId)
    && (forall c <- s.checks :: c.row < s.nextId)
    && (forall a <- s.accepted :: a.check.row <= a.into < s.nextId)
    && (forall i, j | 0 <= i < j < |s.accepted| :: s.accepted[i].into <= s.accepted[j].into)
  }

  lemma NextInTurn(hotp: Hotp, s: State, e: Event)
    requires RowsInTurn(s) && Enabled(s, e, false)
    ensures RowsInTurn(Next(hotp, s, e))
  {
    if e.Advance? {
      var s' := Next(hotp, s, e);
      forall i, j | 0 <= i < j < |s'.accepted| ensures s'.accepted[i].into <= s'.accepted[j].into {
        assert s'.accepted[i] == s.accepted[i] && s.accepted[i] in s.accepted;
      }
    }
  }

  lemma {:induction false} RunsInTurn(hotp: Hotp, trace: seq<State>)
    requires IsRun(hotp, trace, false)
    ensures RowsInTurn(trace[|trace| - 1])
  {
    var n := |trace| - 1;
    if n > 0 {
      RunsInTurn(hotp, trace[..n]);
      assert Steps(hotp, trace[n - 1], trace[n], false);
      var e :| Enabled(trace[n - 1], e, false) && trace[n] == Next(hotp, trace[n - 1], e);
      NextInTurn(hotp, trace[n - 1], e);
    }
  }

  /**
   A code of a secret accepted once more: on another row, which came after the one
   it was checked against, for a step no later than one accepted for that secret before.
   */
  ghost predicate AgainOnALaterRow(accepted: seq<Accepted>, i: int, j: int) {
    && 0 <= i < j < |accepted| && accepted[i].check.row == accepted[j].check.row
    && accepted[i].into < accepted[j].into && accepted[j].check.row < accepted[j].into
    && accepted[j].check.step <= accepted[i].check.step
  }

  /**
   In any one run: the steps accepted per secret go strictly up exactly when none
   of its codes is accepted again on a row that has replaced the secret since.
   */
  lemma OncePerSecretInARun(hotp: Hotp, s: State)
    requires Reachable(hotp, s, false)
    ensures OncePerSecret(s.accepted) <==> !exists i, j :: AgainOnALaterRow(s.accepted, i, j)
  {
    var trace :| IsRun(hotp, trace, false) && trace[|trace| - 1] == s;
    RunsKeep(hotp, trace, false);
    RunsInTurn(hotp, trace);
    forall i, j | 0 <= i < j < |s.accepted| && s.accepted[i].check.row == s.accepted[j].check.row
      ensures s.accepted[i].check.step < s.accepted[j].check.step || AgainOnALaterRow(s.accepted, i, j)
    {
      assert s.accepted[i] in s.accepted && s.accepted[j] in s.accepted;
    }
  }

  lemma OneMore(hotp: Hotp, s: State, e: Event)
    requires Reachable(hotp, s, false) && Enabled(s, e, false)
    ensures Reachable(hotp, Next(hotp, s, e), false)
  {
    var trace :| IsRun(hotp, trace, false) && trace[|trace| - 1] == s;
    var longer := trace + [Next(hotp, s, e)];
    assert Steps(hotp, s, Next(hotp, s, e), false);
    assert IsRun(hotp, longer, false) && longer[|longer| - 1] == Next(hotp, s, e);
  }

  /** Two requests read the first secret with the code it shows for step 1. */
  lemma ReadTwice(hotp: Hotp) returns (check: Check)
    ensures check.row == 0 && check.step > 0
    ensures Reachable(hotp, State(Some(SecretRow(0, "first", false, 0)), 1, multiset{check, check}, []), false)
  {
    assert IsRun(hotp, [Start], false);
    var code := hotp("first", 1);
    var begun := Next(hotp, Start, Begin("first"));
    OneMore(hotp, Start, Begin("first"));
    check := Check(0, "first", code, MatchingStep(hotp, "first", code, 30, 0).value, 30);
    var once := Next(hotp, begun, Read(code, 30));
    OneMore(hotp, begun, Read(code, 30));
    OneMore(hotp, once, Read(code, 30));
    assert multiset{} + multiset{check} + multiset{check} == multiset{check, check};
  }

  /**
   The store spends a step on whatever row stands by then, so one code read
   twice before a reset is accepted before it and once more after.
   */
  lemma SpentTwiceAcrossAReplacement(hotp: Hotp) returns (s: State)
    ensures Reachable(hotp, s, false)
    ensures |s.accepted| == 2 && s.accepted[0].check == s.accepted[1].check
    ensures s.accepted[0].into == s.accepted[0].check.row && s.accepted[1].into != s.accepted[1].check.row
  {
    var check := ReadTwice(hotp);
    s := State(Some(SecretRow(0, "first", false, 0)), 1, multiset{check, check}, []);
    OneMore(hotp, s, Advance(check));
    s := Next(hotp, s, Advance(check));
    assert s.checks == multiset{check};
    OneMore(hotp, s, Remove);
    s := Next(hotp, s, Remove);
    OneMore(hotp, s, Begin("second"));
    s := Next(hotp, s, Begin("second"));
    OneMore(hotp, s, Advance(check));
    s := Next(hotp, s, Advance(check));
  }

  /**
   Over all interleavings the steps accepted for the secret a code was checked
   against go strictly up, each once, exactly when a step may be spent only on
   the row it was checked against: a replacement between the two is what breaks it.
   */
  lemma OncePerSecretExactlyWhen(hotp: Hotp, careful: bool)
    ensures (forall s :: Reachable(hotp, s, careful) ==> OncePerSecret(s.accepted)) <==> careful
  {
    if careful {
      forall s | Reachable(hotp, s, true) ensures OncePerSecret(s.accepted) {
        var trace :| IsRun(hotp, trace, true) && trace[|trace| - 1] == s;
        RunsKeep(hotp, trace, true);
        forall i, j | 0 <= i < j < |s.accepted| && s.accepted[i].check.row == s.accepted[j].check.row
          ensures s.accepted[i].check.step < s.accepted[j].check.step
        {
          assert s.accepted[i] in s.accepted && s.accepted[j] in s.accepted;
        }
      }
    } else {
      var s := SpentTwiceAcrossAReplacement(hotp);
      assert s.accepted[0].check.row == s.accepted[1].check.row;
    }
  }
}
