/**
 Pending sign-ins over whole runs (src/accounts/mfa.rs): where each comes from,
 how long it waits, and what the sessions it ends in go back to.
 */
module PendingRuns {
  import opened Wrappers
  import opened Text
  import opened SignIn
  import opened Codes
  import opened SignInRuns

  // --- what a step does to what is pending ---

  /** A row after a step was there before, with at most one failure more, or was stored by a sign-in. */
  ghost predicate RowComesFrom(site: Site, db: Db, op: Op, db': Db, t: string)
    requires t in db'.pending
  {
    var p := db'.pending[t];
    || (t in db.pending && p == db.pending[t].(failures := p.failures))
    || (op.OpSignIn? && StoredBy(site, db, op, t, p))
  }

  /** The row a sign-in stores: five minutes, no failures, for the code or the setup it owes. */
  ghost predicate StoredBy(site: Site, db: Db, op: Op, t: string, p: Pending)
    requires op.OpSignIn?
  {
    && t == op.drawn && p.user == op.user && p.expiresAt == op.now + 300
    && (op.primary == Password || site.forProviders)
    && (p.stage == Code <==> IsEnabled(db, op.user))
    && (p.stage == Setup ==> MustHave(site, op.isAdmin))
  }

  lemma RowsOfSubmitting(site: Site, db: Db, op: Op, t: string)
    requires op.OpFinishWithCode? || op.OpFinishSetup?
    requires t in Perform(site, db, op).pending
    ensures RowComesFrom(site, db, op, Perform(site, db, op), t)
  {
    if op.OpFinishWithCode? {
      FinishWithCodeExactly(site, db, op.token, op.typed, op.drawn, op.now);
    } else {
      FinishSetupExactly(site, db, op.token, op.typed, op.drawn, op.codes, op.now);
    }
  }

  /** Only the sign-ins of the account itself can go. */
  ghost predicate KeepsOthers(db: Db, db': Db, user: string) {
    && db'.active == db.active
    && (forall t <- db'.pending :: t in db.pending && db'.pending[t] == db.pending[t])
    && (forall t <- db.pending :: db.pending[t].user != user ==> t in db'.pending)
  }

  lemma ConfirmingKeepsOthers(site: Site, db: Db, user: string, typed: string, token: string, codes: set<string>, now: nat)
    ensures KeepsOthers(db, ConfirmSetup(site, db, user, typed, token, codes, now).0, user)
  {
    AcceptsRightCodes(site, db, user, NormaliseCode(typed), SetupBy(token), false, now);
  }

  lemma TurningOffKeepsOthers(site: Site, db: Db, user: string, isAdmin: bool, typed: string, now: nat)
    ensures KeepsOthers(db, TurnOff(site, db, user, isAdmin, typed, now).0, user)
  {
    CountedExactly(site, db, user, typed, Enabled, true, now);
  }

  lemma RegeneratingKeeps(site: Site, db: Db, user: string, typed: string, codes: set<string>, now: nat)
    ensures var db' := RegenerateCodes(site, db, user, typed, codes, now).0; db'.pending == db.pending && db'.active == db.active
  {
    CountedExactly(site, db, user, typed, Enabled, false, now);
  }

  lemma AccountPageKeepsOthers(site: Site, db: Db, op: Op)
    requires op.OpConfirmSetup? || op.OpTurnOff? || op.OpRegenerate? || op.OpBeginSetup? || op.OpShowPendingSetup?
    ensures var (db', user) := (Perform(site, db, op), SiteUser(db, op.token));
            if user.Some? && (op.OpConfirmSetup? || op.OpTurnOff?) then KeepsOthers(db, db', user.value)
            else db'.pending == db.pending && db'.active == db.active
  {
    var user := SiteUser(db, op.token);
    if user.Some? {
      if op.OpConfirmSetup? {
        ConfirmingKeepsOthers(site, db, user.value, op.typed, op.token, op.codes, op.now);
      } else if op.OpTurnOff? {
        TurningOffKeepsOthers(site, db, user.value, op.isAdmin, op.typed, op.now);
      } else if op.OpRegenerate? {
        RegeneratingKeeps(site, db, user.value, op.typed, op.codes, op.now);
      }
    }
  }

  lemma RowsOf(site: Site, db: Db, op: Op, t: string)
    requires t in Perform(site, db, op).pending
    ensures RowComesFrom(site, db, op, Perform(site, db, op), t)
  {
    if op.OpFinishWithCode? || op.OpFinishSetup? {
      RowsOfSubmitting(site, db, op, t);
    } else if op.OpConfirmSetup? || op.OpTurnOff? || op.OpRegenerate? || op.OpBeginSetup? || op.OpShowPendingSetup? {
      AccountPageKeepsOthers(site, db, op);
    } else if op.OpSignIn? {
      AfterPrimaryExactly(site, db, op.user, op.isAdmin, op.primary, op.drawn, op.now);
    }
  }

  // --- where a pending sign-in comes from ---

  /** Step `i` is the sign-in that stored this row. */
  ghost predicate BeganAt(site: Site, trace: seq<Db>, ops: seq<Op>, t: string, p: Pending, i: nat) {
    i < |ops| && i < |trace| && ops[i].OpSignIn? && StoredBy(site, trace[i], ops[i], t, p)
  }

  lemma {:induction false} RowsBegan(site: Site, trace: seq<Db>, ops: seq<Op>, t: string)
    requires IsRun(site, trace, ops) && t in trace[|ops|].pending
    ensures exists i: nat :: BeganAt(site, trace, ops, t, trace[|ops|].pending[t], i)
  {
    var n := |ops|;
    assert n > 0;
    var db, p := trace[n - 1], trace[n].pending[t];
    assert StepsTo(site, db, ops[n - 1], trace[n]);
    RowsOf(site, db, ops[n - 1], t);
    if t in db.pending && p == db.pending[t].(failures := p.failures) {
      assert IsRun(site, trace[..n], ops[..n - 1]);
      RowsBegan(site, trace[..n], ops[..n - 1], t);
      var i: nat :| BeganAt(site, trace[..n], ops[..n - 1], t, db.pending[t], i);
      assert BeganAt(site, trace, ops, t, p, i);
    } else {
      assert BeganAt(site, trace, ops, t, p, n - 1);
    }
  }

  /** A session a code or a setup code was answered with. */
  ghost predicate IssuedBy(db: Db, op: Op, db': Db) {
    (op.OpFinishWithCode? || op.OpFinishSetup?) && op.drawn !in db.sessions && op.drawn in db'.sessions
  }

  /**
   In every run, a session a code is answered with is for the account of an
   earlier sign-in with a password, or a provider's that is asked, at most five
   minutes before by the clock; with the code page when it was on then, with the
   setup page when it was not and must be.
   */
  lemma SessionsFollowASignIn(site: Site, trace: seq<Db>, ops: seq<Op>, k: nat)
    requires IsRun(site, trace, ops) && k < |ops| && IssuedBy(trace[k], ops[k], trace[k + 1])
    ensures exists i: nat ::
              && i < k && ops[i].OpSignIn? && ops[i].drawn == ops[k].token
              && trace[k + 1].sessions[ops[k].drawn] == SiteSession(ops[i].user) && ops[k].now <= ops[i].now + 300
              && (ops[i].primary == Password || site.forProviders)
              && (ops[k].OpFinishWithCode? <==> IsEnabled(trace[i], ops[i].user))
              && (ops[k].OpFinishSetup? ==> MustHave(site, ops[i].isAdmin))
  {
    var op, db := ops[k], trace[k];
    assert StepsTo(site, trace[k], ops[k], trace[k + 1]);
    if op.OpFinishWithCode? {
      FinishWithCodeExactly(site, db, op.token, op.typed, op.drawn, op.now);
    } else {
      FinishSetupExactly(site, db, op.token, op.typed, op.drawn, op.codes, op.now);
    }
    assert IsRun(site, trace[..k + 1], ops[..k]) by {
      assert forall j | 0 <= j < k :: StepsTo(site, trace[j], ops[j], trace[j + 1]);
    }
    RowsBegan(site, trace[..k + 1], ops[..k], op.token);
    var i: nat :| BeganAt(site, trace[..k + 1], ops[..k], op.token, db.pending[op.token], i);
    assert ops[..k][i] == ops[i] && trace[..k + 1][i] == trace[i];
  }

  // --- how long it waits ---

  predicate Submits(op: Op, token: string) {
    (op.OpFinishWithCode? || op.OpFinishSetup?) && op.token == token
  }

  function Submissions(ops: seq<Op>, token: string): nat {
    if ops == [] then 0 else Submissions(ops[..|ops| - 1], token) + if Submits(ops[|ops| - 1], token) then 1 else 0
  }

  /** No step that ends a sign-in of the account: its own code, right; it turned on, off or reset; a new password; disabled. */
  ghost predicate LetsWait(site: Site, db: Db, op: Op, token: string)
    requires token in db.pending
  {
    var p := db.pending[token];
    match op
    case OpSignIn(_, _, _, _, now) => now <= p.expiresAt
    case OpFinishWithCode(t, typed, _, now) => t == token ==> !CodeEnters(site, db, token, typed, now)
    case OpFinishSetup(t, typed, _, _, now) =>
      if t == token then !SetupEnters(site, db, token, typed, now) && (p.stage == Setup ==> OwnSetup(db, token))
      else t in db.pending && db.pending[t].user == p.user ==> !SetupEnters(site, db, t, typed, now)
    case OpConfirmSetup(t, _, _, _) => SiteUser(db, t) != Some(p.user)
    case OpTurnOff(t, _, _, _) => SiteUser(db, t) != Some(p.user)
    case OpChangePassword(t) => SiteUser(db, t) != Some(p.user)
    case OpReset(user) => user != p.user
    case OpAcceptInvite(user) => user != p.user
    case OpSetActive(user, active) => user == p.user ==> active
    case _ => true
  }

  /** It is still there, a submission of its own counted at most once. */
  ghost predicate StillThere(db: Db, op: Op, db': Db, token: string)
    requires token in db.pending
  {
    && token in db'.pending && db'.pending[token] == db.pending[token].(failures := db'.pending[token].failures)
    && db'.pending[token].failures <= db.pending[token].failures + (if Submits(op, token) then 1 else 0)
    && (db.pending[token].user in db.active ==> db.pending[token].user in db'.active)
  }

  lemma WaitsThroughSubmitting(site: Site, db: Db, op: Op, token: string)
    requires token in db.pending && LetsWait(site, db, op, token) && (op.OpFinishWithCode? || op.OpFinishSetup?)
    requires Submits(op, token) ==> db.pending[token].failures < 4
    ensures StillThere(db, op, Perform(site, db, op), token)
  {
    if op.OpFinishWithCode? {
      FinishWithCodeExactly(site, db, op.token, op.typed, op.drawn, op.now);
      CodeLeavesActive(site, db, op);
    } else {
      FinishSetupExactly(site, db, op.token, op.typed, op.drawn, op.codes, op.now);
    }
  }

  lemma CodeLeavesActive(site: Site, db: Db, op: Op)
    requires op.OpFinishWithCode?
    ensures Perform(site, db, op).active == db.active
  {
    FinishWithCodeExactly(site, db, op.token, op.typed, op.drawn, op.now);
    if CodeEnters(site, db, op.token, op.typed, op.now) {
      var user := db.pending[op.token].user;
      CountedExactly(site, TakeTry(db, op.token).0, user, op.typed, Enabled, true, op.now);
    }
  }

  lemma WaitsThrough(site: Site, db: Db, op: Op, token: string)
    requires token in db.pending && LetsWait(site, db, op, token) && token !in Drawn(op)
    requires Submits(op, token) ==> db.pending[token].failures < 4
    ensures StillThere(db, op, Perform(site, db, op), token)
  {
    if op.OpFinishWithCode? || op.OpFinishSetup? {
      WaitsThroughSubmitting(site, db, op, token);
    } else if op.OpConfirmSetup? || op.OpTurnOff? || op.OpRegenerate? || op.OpBeginSetup? || op.OpShowPendingSetup? {
      AccountPageKeepsOthers(site, db, op);
    } else if op.OpSignIn? {
      AfterPrimaryExactly(site, db, op.user, op.isAdmin, op.primary, op.drawn, op.now);
    }
  }

  lemma UsedGrowsWithCode(site: Site, db: Db, op: Op)
    requires op.OpFinishWithCode? || op.OpFinishSetup? || op.OpConfirmSetup? || op.OpTurnOff? || op.OpRegenerate?
    ensures db.log.used <= Perform(site, db, op).log.used
  {
    var user := SiteUser(db, op.token);
    if op.OpFinishWithCode? {
      FinishWithCodeTakes(site, db, op.token, op.typed, op.drawn, op.now);
    } else if op.OpFinishSetup? {
      UsedGrowsWithSetup(site, db, op);
    } else if user.Some? && op.OpConfirmSetup? {
      AcceptsRightCodes(site, db, user.value, NormaliseCode(op.typed), SetupBy(op.token), false, op.now);
    } else if user.Some? && op.OpTurnOff? {
      TurnOffTakes(site, db, user.value, op.isAdmin, op.typed, op.now);
    } else if user.Some? && op.OpRegenerate? {
      RegenerateTakes(site, db, user.value, op.typed, op.codes, op.now);
    }
  }

  lemma UsedGrowsWithSetup(site: Site, db: Db, op: Op)
    requires op.OpFinishSetup?
    ensures db.log.used <= Perform(site, db, op).log.used
  {
    if SetupEnters(site, db, op.token, op.typed, op.now) {
      var tried := TakeTry(db, op.token).0;
      SetupFinishes(site, db, op.token, op.typed, op.drawn, op.codes, op.now);
      AcceptsRightCodes(site, tried, db.pending[op.token].user, NormaliseCode(op.typed), SetupBy(op.token), false, op.now);
    } else {
      FinishSetupExactly(site, db, op.token, op.typed, op.drawn, op.codes, op.now);
    }
  }

  /** What was drawn stays drawn. */
  lemma UsedGrows(site: Site, db: Db, op: Op)
    ensures db.log.used <= Perform(site, db, op).log.used
  {
    if op.OpFinishWithCode? || op.OpFinishSetup? || op.OpConfirmSetup? || op.OpTurnOff? || op.OpRegenerate? {
      UsedGrowsWithCode(site, db, op);
    }
  }

  /** What is owed after a sign-in that is asked: the code page, or the setup page. */
  function Owed(db: Db, user: string): Stage {
    if IsEnabled(db, user) then Code else Setup
  }

  /** Since step `i` nothing ended the sign-in it began, and it has had fewer than five codes. */
  ghost predicate LeftWaiting(site: Site, trace: seq<Db>, ops: seq<Op>, i: nat)
    requires |trace| == |ops| + 1 && i < |ops| && ops[i].OpSignIn?
  {
    && Submissions(ops[i + 1..], ops[i].drawn) <= 4
    && forall k | i < k < |ops| && ops[i].drawn in trace[k].pending :: LetsWait(site, trace[k], ops[k], ops[i].drawn)
  }

  lemma SubmissionsGrow(ops: seq<Op>, i: nat, token: string)
    requires i + 1 < |ops|
    ensures var last := ops[|ops| - 1];
            Submissions(ops[i + 1..], token) ==
            Submissions(ops[..|ops| - 1][i + 1..], token) + if Submits(last, token) then 1 else 0
  {
    var rest := ops[i + 1..];
    assert rest[..|rest| - 1] == ops[..|ops| - 1][i + 1..];
  }

  /** The row as the sign-in stored it, but for the codes it was sent since. */
  ghost predicate WaitsStill(site: Site, trace: seq<Db>, ops: seq<Op>, i: nat)
    requires |trace| == |ops| + 1 && i < |ops| && ops[i].OpSignIn?
  {
    var (op, db) := (ops[i], trace[|ops|]);
    && op.drawn in db.pending && op.drawn in db.log.used
    && db.pending[op.drawn] == Pending(op.user, Owed(trace[i], op.user), op.now + 300, db.pending[op.drawn].failures)
    && db.pending[op.drawn].failures <= Submissions(ops[i + 1..], op.drawn)
    && op.user in db.active
  }

  /** A sign-in that is asked, of an account that is not disabled, and owes a code or the setup. */
  ghost predicate Owes(site: Site, db: Db, op: Op) {
    && op.OpSignIn? && op.user in db.active && (op.primary == Password || site.forProviders)
    && (IsEnabled(db, op.user) || MustHave(site, op.isAdmin))
  }

  lemma BeginsWaiting(site: Site, db: Db, op: Op)
    requires Owes(site, db, op)
    ensures var db' := Perform(site, db, op);
            && op.drawn in db'.pending && op.drawn in db'.log.used && op.user in db'.active
            && db'.pending[op.drawn] == Pending(op.user, Owed(db, op.user), op.now + 300, 0)
  {
    AfterPrimaryExactly(site, db, op.user, op.isAdmin, op.primary, op.drawn, op.now);
  }

  lemma OneStepMore(site: Site, trace: seq<Db>, ops: seq<Op>, i: nat)
    requires |trace| == |ops| + 1 && i + 1 < |ops| && ops[i].OpSignIn? && LeftWaiting(site, trace, ops, i)
    requires StepsTo(site, trace[|ops| - 1], ops[|ops| - 1], trace[|ops|])
    requires WaitsStill(site, trace[..|ops|], ops[..|ops| - 1], i)
    ensures WaitsStill(site, trace, ops, i)
  {
    var n, token := |ops|, ops[i].drawn;
    var db, last := trace[n - 1], ops[n - 1];
    SubmissionsGrow(ops, i, token);
    assert LetsWait(site, db, last, token);
    WaitsThrough(site, db, last, token);
    UsedGrows(site, db, last);
  }

  lemma LeftBefore(site: Site, trace: seq<Db>, ops: seq<Op>, i: nat)
    requires |trace| == |ops| + 1 && i + 1 < |ops| && ops[i].OpSignIn? && LeftWaiting(site, trace, ops, i)
    ensures LeftWaiting(site, trace[..|ops|], ops[..|ops| - 1], i)
  {
    SubmissionsGrow(ops, i, ops[i].drawn);
  }

  lemma {:induction false} StaysWaiting(site: Site, trace: seq<Db>, ops: seq<Op>, i: nat)
    requires IsRun(site, trace, ops) && i < |ops| && Owes(site, trace[i], ops[i])
    requires LeftWaiting(site, trace, ops, i)
    ensures WaitsStill(site, trace, ops, i)
  {
    var n := |ops|;
    assert StepsTo(site, trace[n - 1], ops[n - 1], trace[n]);
    if i == n - 1 {
      BeginsWaiting(site, trace[i], ops[i]);
    } else {
      LeftBefore(site, trace, ops, i);
      StaysWaiting(site, trace[..n], ops[..n - 1], i);
      OneStepMore(site, trace, ops, i);
    }
  }

  /**
   The other half: a sign-in that owes a code or the setup waits for it for the
   whole five minutes, with a try left, through every run in which nothing ends it
   and it is sent fewer than five codes.
   */
  lemma SignInsWait(site: Site, trace: seq<Db>, ops: seq<Op>, i: nat, now: nat)
    requires IsRun(site, trace, ops) && i < |ops| && Owes(site, trace[i], ops[i])
    requires LeftWaiting(site, trace, ops, i) && now <= ops[i].now + 300
    ensures Waits(trace[|ops|], ops[i].drawn, Owed(trace[i], ops[i].user), now) && HasTries(trace[|ops|], ops[i].drawn)
  {
    StaysWaiting(site, trace, ops, i);
  }
}
