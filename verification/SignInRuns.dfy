/**
 Whole runs of sign-in operations (src/accounts/mfa.rs): how every session of an
 account with two-step sign-in on came about, and who was ever shown its secret.
 */
module SignInRuns {
  import opened Wrappers
  import opened Text
  import Attempts
  import Totp
  import opened SignIn
  import opened Codes

  /** Fresh names are fresh. */
  ghost predicate Allowed(db: Db, op: Op) {
    Drawn(op) !! db.log.used
  }

  ghost predicate IsRun(site: Site, trace: seq<Db>, ops: seq<Op>) {
    && |trace| == |ops| + 1 && trace[0] == Empty
    && forall i | 0 <= i < |ops| :: StepsTo(site, trace[i], ops[i], trace[i + 1])
  }

  ghost predicate StepsTo(site: Site, db: Db, op: Op, db': Db) {
    Allowed(db, op) && db' == Perform(site, db, op)
  }

  /** Every sign-in is one the second step is asked of. */
  ghost predicate AllAsked(site: Site, ops: seq<Op>) {
    forall op <- ops :: op.OpSignIn? ==> Applies(site, op.primary)
  }

  // --- who was shown the secret ---

  /** The sign-in an account's secret belongs to: the one setting it up, or the one that turned it on. */
  ghost function Holder(db: Db, user: string): string
    requires user in db.mfa
    requires db.mfa[user].enabled ==> user in db.log.confirmed
  {
    if db.mfa[user].enabled then db.log.confirmed[user] else db.mfa[user].begunBy
  }

  /** Everything there is was drawn, no secret twice, and a secret that is on has its confirmer. */
  ghost predicate Fresh(db: Db) {
    && (forall t <- db.sessions :: t in db.log.used)
    && (forall user <- db.mfa :: db.mfa[user].secret in db.log.used)
    && (forall s <- db.log.shown :: s.0 in db.log.used)
    && (forall user <- db.mfa | db.mfa[user].enabled :: user in db.log.confirmed)
    && (forall u <- db.mfa, v <- db.mfa | u != v :: db.mfa[u].secret != db.mfa[v].secret)
  }

  ghost predicate Inv(db: Db) {
    && Fresh(db)
    && (forall user <- db.mfa :: (db.mfa[user].secret, Holder(db, user)) in db.log.shown)
    && (forall user <- db.mfa, s <- db.log.shown | s.0 == db.mfa[user].secret :: s.1 == Holder(db, user))
  }

  /** No secret is new, shown or turned on; what is gone is gone. */
  ghost predicate Keeps(db: Db, db': Db) {
    && (forall t <- db'.sessions :: t in db.sessions || t in db'.log.used)
    && (forall user <- db'.mfa :: user in db.mfa && db'.mfa[user] == db.mfa[user].(lastStep := db'.mfa[user].lastStep))
    && db'.log.confirmed == db.log.confirmed && db'.log.shown == db.log.shown && db.log.used <= db'.log.used
  }

  lemma KeepsInv(db: Db, db': Db)
    requires Keeps(db, db') && Inv(db)
    ensures Inv(db')
  {
  }

  lemma KeepsTwice(a: Db, b: Db, c: Db)
    requires Keeps(a, b) && Keeps(b, c)
    ensures Keeps(a, c)
  {
  }

  lemma SpendingKeeps(db: Db, db': Db, user: string)
    requires OnlySpends(db.(failures := db'.failures), db', user)
    ensures Keeps(db, db')
  {
  }

  lemma CountedKeeps(site: Site, db: Db, user: string, typed: string, which: Secret, allowRecovery: bool, now: nat)
    ensures Keeps(db, AcceptCounted(site, db, user, typed, which, allowRecovery, now).0)
  {
    CountedExactly(site, db, user, typed, which, allowRecovery, now);
    var (db', used) := AcceptCounted(site, db, user, typed, which, allowRecovery, now);
    if Good(used) {
      SpendingKeeps(db, db', user);
    }
  }

  lemma FinishTakes(db: Db, token: string, user: string, session: string)
    ensures Keeps(db, Finish(db, token, user, session).0)
  {
  }

  lemma TryTakes(db: Db, token: string)
    ensures Keeps(db, TakeTry(db, token).0)
  {
  }

  /** What follows the check of a code, whatever it found. */
  lemma CodeTakes(site: Site, tried: Db, token: string, user: string, typed: string, session: string, tries: nat, now: nat)
    ensures var checked := AcceptCounted(site, tried, user, typed, Enabled, true, now).0;
            Keeps(tried, checked) && Keeps(tried, Finish(checked, token, user, session).0) && Keeps(tried, Wronged(checked, token, tries).0)
  {
    CountedKeeps(site, tried, user, typed, Enabled, true, now);
    var checked := AcceptCounted(site, tried, user, typed, Enabled, true, now).0;
    FinishTakes(checked, token, user, session);
    KeepsTwice(tried, checked, Finish(checked, token, user, session).0);
    KeepsTwice(tried, checked, Wronged(checked, token, tries).0);
  }

  lemma FinishWithCodeTakes(site: Site, db: Db, token: string, typed: string, session: string, now: nat)
    ensures Keeps(db, FinishWithCode(site, db, token, typed, session, now).0)
  {
    var p := LoadPending(db, token, now);
    if p.Some? && p.value.stage == Code {
      var (tried, tries) := TakeTry(db, token);
      TryTakes(db, token);
      if tries.Ok? {
        CodeTakes(site, tried, token, p.value.user, typed, session, tries.value, now);
        KeepsTwice(db, tried, FinishWithCode(site, db, token, typed, session, now).0);
      }
    }
  }

  lemma EndingTakes(site: Site, db: Db, op: Op)
    requires op.OpCancelSetup? || op.OpReset? || op.OpChangePassword? || op.OpAcceptInvite?
    ensures Keeps(db, Perform(site, db, op))
  {
  }

  lemma SignInTakes(site: Site, db: Db, op: Op)
    requires op.OpSignIn?
    ensures Keeps(db, Perform(site, db, op))
  {
    AfterPrimaryExactly(site, db, op.user, op.isAdmin, op.primary, op.drawn, op.now);
  }

  lemma SessionsTake(site: Site, db: Db, op: Op)
    requires op.OpLogOut? || op.OpSetActive? || op.OpAppSession?
    ensures Keeps(db, Perform(site, db, op))
  {
  }

  /** What only takes things away, or adds a session. */
  lemma OthersTake(site: Site, db: Db, op: Op)
    requires op.OpCancelSetup? || op.OpReset? || op.OpChangePassword? || op.OpAcceptInvite? || op.OpLogOut? || op.OpSetActive?
             || op.OpAppSession? || op.OpSignIn?
    ensures Keeps(db, Perform(site, db, op))
  {
    if op.OpCancelSetup? || op.OpReset? || op.OpChangePassword? || op.OpAcceptInvite? {
      EndingTakes(site, db, op);
    } else if op.OpSignIn? {
      SignInTakes(site, db, op);
    } else {
      SessionsTake(site, db, op);
    }
  }

  lemma TurnOffTakes(site: Site, db: Db, user: string, isAdmin: bool, typed: string, now: nat)
    ensures Keeps(db, TurnOff(site, db, user, isAdmin, typed, now).0)
  {
    CountedKeeps(site, db, user, typed, Enabled, true, now);
    var checked := AcceptCounted(site, db, user, typed, Enabled, true, now).0;
    KeepsTwice(db, checked, RemovedMfa(checked, user));
  }

  lemma RegenerateTakes(site: Site, db: Db, user: string, typed: string, codes: set<string>, now: nat)
    ensures Keeps(db, RegenerateCodes(site, db, user, typed, codes, now).0)
  {
    CountedKeeps(site, db, user, typed, Enabled, false, now);
    var checked := AcceptCounted(site, db, user, typed, Enabled, false, now).0;
    KeepsTwice(db, checked, checked.(recovery := ReplacedCodes(checked.recovery, user, codes)));
  }

  /** A setup of `owner`'s own, shown to it: as it stands, or with a secret nobody saw. */
  ghost predicate ShowsSetup(db: Db, db': Db, user: string, owner: string) {
    && user in db'.mfa && !db'.mfa[user].enabled && db'.mfa[user].begunBy == owner
    && db'.mfa == db.mfa[user := db'.mfa[user]]
    && ((user in db.mfa && db.mfa[user] == db'.mfa[user]) || db'.mfa[user].secret !in db.log.used)
    && db'.sessions == db.sessions
    && db'.log == db.log.(shown := db.log.shown + {(db'.mfa[user].secret, owner)}, used := db.log.used + {db'.mfa[user].secret})
  }

  lemma SetupIsFresh(db: Db, db': Db, user: string, owner: string)
    requires Inv(db) && ShowsSetup(db, db', user, owner)
    ensures Fresh(db')
  {
    assert forall u <- db'.mfa | u != user :: u in db.mfa && db'.mfa[u] == db.mfa[u];
  }

  lemma SetupShown(db: Db, db': Db, user: string, owner: string)
    requires Inv(db) && !IsEnabled(db, user) && ShowsSetup(db, db', user, owner)
    ensures Inv(db')
  {
    SetupIsFresh(db, db', user, owner);
    forall u <- db'.mfa, s <- db'.log.shown | s.0 == db'.mfa[u].secret ensures s.1 == Holder(db', u) {
      if u != user {
        assert db'.mfa[u] == db.mfa[u] && Holder(db', u) == Holder(db, u);
        assert s in db.log.shown;
      } else if s in db.log.shown {
        assert s.0 in db.log.used;
      }
    }
  }

  lemma BeginSetupKeeps(site: Site, db: Db, user: string, owner: string, drawn: string)
    requires Inv(db) && drawn !in db.log.used
    ensures Inv(BeginSetup(site, db, user, owner, drawn).0)
  {
    if !IsEnabled(db, user) {
      if MfaSecret(db, user, SetupBy(owner)).Some? {
        assert db.mfa == db.mfa[user := db.mfa[user]];
      }
      SetupShown(db, BeginSetup(site, db, user, owner, drawn).0, user, owner);
    }
  }

  lemma EnableKeeps(db: Db, user: string, keep: Option<string>, owner: string, codes: set<string>)
    requires Inv(db) && MfaSecret(db, user, SetupBy(owner)).Some?
    ensures Inv(Enable(db, user, keep, owner, codes).0)
  {
    var db' := Enable(db, user, keep, owner, codes).0;
    assert db'.log.shown == db.log.shown && db'.log.used == db.log.used;
    forall u <- db'.mfa ensures u in db.mfa && db'.mfa[u].secret == db.mfa[u].secret && Holder(db', u) == Holder(db, u) {
    }
  }

  /** A setup confirmed: the secret stays that of the sign-in it was shown to. */
  lemma ConfirmedKeeps(site: Site, db: Db, user: string, code: string, owner: string, keep: Option<string>, codes: set<string>, now: nat)
    requires Inv(db) && RightCode(site, db, user, code, SetupBy(owner), false, now)
    ensures Inv(Enable(AcceptCode(site, db, user, code, SetupBy(owner), false, now).0, user, keep, owner, codes).0)
  {
    var checked := AcceptCode(site, db, user, code, SetupBy(owner), false, now).0;
    AcceptsRightCodes(site, db, user, code, SetupBy(owner), false, now);
    RightSetupCode(site, db, user, code, owner, now);
    SpendingKeeps(db, checked, user);
    KeepsInv(db, checked);
    EnableKeeps(checked, user, keep, owner, codes);
  }

  lemma ConfirmKeeps(site: Site, db: Db, user: string, typed: string, token: string, codes: set<string>, now: nat)
    requires Inv(db)
    ensures Inv(ConfirmSetup(site, db, user, typed, token, codes, now).0)
  {
    ConfirmSetupExactly(site, db, user, typed, token, codes, now);
    if RightCode(site, db, user, NormaliseCode(typed), SetupBy(token), false, now) {
      AcceptsRightCodes(site, db, user, NormaliseCode(typed), SetupBy(token), false, now);
      ConfirmedKeeps(site, db, user, NormaliseCode(typed), token, Some(token), codes, now);
    }
  }

  lemma FinishSetupKeeps(site: Site, db: Db, token: string, typed: string, session: string, codes: set<string>, now: nat)
    requires Inv(db)
    ensures Inv(FinishSetup(site, db, token, typed, session, codes, now).0)
  {
    var after := FinishSetup(site, db, token, typed, session, codes, now).0;
    if SetupEnters(site, db, token, typed, now) {
      var user, code := db.pending[token].user, NormaliseCode(typed);
      var tried := TakeTry(db, token).0;
      TryTakes(db, token);
      KeepsInv(db, tried);
      TriesAreApart(site, db, tried, user, code, SetupBy(token), false, now);
      ConfirmedKeeps(site, tried, user, code, token, None, codes, now);
      SetupFinishes(site, db, token, typed, session, codes, now);
      var on := Enable(AcceptCode(site, tried, user, code, SetupBy(token), false, now).0, user, None, token, codes).0;
      FinishTakes(on, token, user, session);
      KeepsInv(on, after);
    } else {
      SetupRefused(site, db, token, typed, session, codes, now);
      KeepsInv(db, after);
    }
  }

  lemma SetupFinishes(site: Site, db: Db, token: string, typed: string, session: string, codes: set<string>, now: nat)
    requires SetupEnters(site, db, token, typed, now)
    ensures var user := db.pending[token].user;
            var checked := AcceptCode(site, TakeTry(db, token).0, user, NormaliseCode(typed), SetupBy(token), false, now).0;
            FinishSetup(site, db, token, typed, session, codes, now).0 ==
            Finish(Enable(checked, user, None, token, codes).0, token, user, session).0
  {
    FinishSetupExactly(site, db, token, typed, session, codes, now);
  }

  lemma SetupRefused(site: Site, db: Db, token: string, typed: string, session: string, codes: set<string>, now: nat)
    requires !SetupEnters(site, db, token, typed, now)
    ensures Keeps(db, FinishSetup(site, db, token, typed, session, codes, now).0)
  {
    FinishSetupExactly(site, db, token, typed, session, codes, now);
    SetupRefusedLog(site, db, token, typed, session, codes, now);
  }

  lemma SetupRefusedLog(site: Site, db: Db, token: string, typed: string, session: string, codes: set<string>, now: nat)
    requires FinishSetup(site, db, token, typed, session, codes, now).1.Err?
    ensures FinishSetup(site, db, token, typed, session, codes, now).0.log == db.log
  {
    if Waits(db, token, Setup, now) && HasTries(db, token) {
      AcceptsRightCodes(site, TakeTry(db, token).0, db.pending[token].user, NormaliseCode(typed), SetupBy(token), false, now);
    }
  }

  lemma InvKeeps(site: Site, db: Db, op: Op)
    requires Inv(db) && Allowed(db, op)
    ensures Inv(Perform(site, db, op))
  {
    match op
    case OpFinishWithCode(token, typed, drawn, now) =>
      FinishWithCodeTakes(site, db, token, typed, drawn, now);
      KeepsInv(db, Perform(site, db, op));
    case OpShowPendingSetup(token, drawn, now) =>
      var p := LoadPending(db, token, now);
      if p.Some? {
        BeginSetupKeeps(site, db, p.value.user, token, drawn);
      }
    case OpFinishSetup(token, typed, drawn, codes, now) => FinishSetupKeeps(site, db, token, typed, drawn, codes, now);
    case OpBeginSetup(token, drawn) =>
      if SiteUser(db, token).Some? {
        BeginSetupKeeps(site, db, SiteUser(db, token).value, token, drawn);
      }
    case OpConfirmSetup(token, typed, codes, now) =>
      if SiteUser(db, token).Some? {
        ConfirmKeeps(site, db, SiteUser(db, token).value, typed, token, codes, now);
      }
    case OpTurnOff(token, isAdmin, typed, now) =>
      if SiteUser(db, token).Some? {
        TurnOffTakes(site, db, SiteUser(db, token).value, isAdmin, typed, now);
        KeepsInv(db, Perform(site, db, op));
      }
    case OpRegenerate(token, typed, codes, now) =>
      if SiteUser(db, token).Some? {
        RegenerateTakes(site, db, SiteUser(db, token).value, typed, codes, now);
        KeepsInv(db, Perform(site, db, op));
      }
    case _ =>
      OthersTake(site, db, op);
      KeepsInv(db, Perform(site, db, op));
  }

  lemma {:induction false} RunsKeep(site: Site, trace: seq<Db>, ops: seq<Op>)
    requires IsRun(site, trace, ops)
    ensures Inv(trace[|ops|])
  {
    var n := |ops|;
    if n > 0 {
      RunsKeep(site, trace[..n], ops[..n - 1]);
      assert StepsTo(site, trace[n - 1], ops[n - 1], trace[n]);
      InvKeeps(site, trace[n - 1], ops[n - 1]);
    }
  }

  // --- how it was turned on ---

  /** The code an operation was given, and the clock it was checked at. */
  predicate TakesCode(op: Op) {
    op.OpFinishWithCode? || op.OpFinishSetup? || op.OpConfirmSetup?
  }

  ghost predicate SpendsCode(site: Site, db: Db, op: Op, db': Db, user: string) {
    TakesCode(op) && Spends(site, db, db', user, NormaliseCode(op.typed), op.now)
  }

  /** An account that is on after a step was on before, with the same secret, or its code was spent in that step. */
  ghost predicate TurnsOnFairly(site: Site, db: Db, op: Op, db': Db, user: string)
    requires IsEnabled(db', user)
  {
    if IsEnabled(db, user) then
      && db'.mfa[user].secret == db.mfa[user].secret
      && (user in db.log.confirmed <==> user in db'.log.confirmed)
      && (user in db.log.confirmed ==> db'.log.confirmed[user] == db.log.confirmed[user])
    else
      && SpendsCode(site, db, op, db', user) && (op.OpConfirmSetup? || op.OpFinishSetup?)
      && user in db'.log.confirmed && db'.log.confirmed[user] == op.token
  }

  lemma TurnsOn(site: Site, db: Db, op: Op, user: string)
    requires IsEnabled(Perform(site, db, op), user)
    ensures TurnsOnFairly(site, db, op, Perform(site, db, op), user)
  {
    match op
    case OpFinishWithCode(token, typed, drawn, now) =>
      FinishWithCodeExactly(site, db, token, typed, drawn, now);
      FinishWithCodeTakes(site, db, token, typed, drawn, now);
    case OpFinishSetup(token, typed, drawn, codes, now) => SetupTurnsOnFairly(site, db, op, user);
    case OpConfirmSetup(token, typed, codes, now) => ConfirmTurnsOnFairly(site, db, op, user);
    case OpTurnOff(token, isAdmin, typed, now) =>
      if SiteUser(db, token).Some? {
        TurnOffTakes(site, db, SiteUser(db, token).value, isAdmin, typed, now);
      }
    case OpRegenerate(token, typed, codes, now) =>
      if SiteUser(db, token).Some? {
        RegenerateTakes(site, db, SiteUser(db, token).value, typed, codes, now);
      }
    case OpShowPendingSetup(_, _, _) =>
    case OpBeginSetup(_, _) =>
    case _ => OthersTake(site, db, op);
  }

  lemma ConfirmTurnsOnFairly(site: Site, db: Db, op: Op, user: string)
    requires op.OpConfirmSetup? && IsEnabled(Perform(site, db, op), user)
    ensures TurnsOnFairly(site, db, op, Perform(site, db, op), user)
  {
    var who := SiteUser(db, op.token);
    if who.Some? {
      var code := NormaliseCode(op.typed);
      ConfirmSetupExactly(site, db, who.value, op.typed, op.token, op.codes, op.now);
      if RightCode(site, db, who.value, code, SetupBy(op.token), false, op.now) {
        RightSetupCode(site, db, who.value, code, op.token, op.now);
        AcceptsRightCodes(site, db, who.value, code, SetupBy(op.token), false, op.now);
      }
    }
  }

  lemma SetupTurnsOnFairly(site: Site, db: Db, op: Op, user: string)
    requires op.OpFinishSetup? && IsEnabled(Perform(site, db, op), user)
    ensures TurnsOnFairly(site, db, op, Perform(site, db, op), user)
  {
    FinishSetupExactly(site, db, op.token, op.typed, op.drawn, op.codes, op.now);
    if SetupEnters(site, db, op.token, op.typed, op.now) {
      SetupFinishes(site, db, op.token, op.typed, op.drawn, op.codes, op.now);
      SetupLog(site, db, op);
      var who := db.pending[op.token].user;
      if user != who {
        assert (Perform(site, db, op).mfa - {who})[user] == (db.mfa - {who})[user];
      }
    } else {
      SetupRefusedLog(site, db, op.token, op.typed, op.drawn, op.codes, op.now);
    }
  }

  lemma SetupLog(site: Site, db: Db, op: Op)
    requires op.OpFinishSetup? && SetupEnters(site, db, op.token, op.typed, op.now)
    ensures Perform(site, db, op).log.confirmed == db.log.confirmed[db.pending[op.token].user := op.token]
  {
    var user, code := db.pending[op.token].user, NormaliseCode(op.typed);
    var tried := TakeTry(db, op.token).0;
    SetupFinishes(site, db, op.token, op.typed, op.drawn, op.codes, op.now);
    TriesAreApart(site, db, tried, user, code, SetupBy(op.token), false, op.now);
    AcceptsRightCodes(site, tried, user, code, SetupBy(op.token), false, op.now);
    RightSetupCode(site, tried, user, code, op.token, op.now);
  }

  /** On from step `i`, and since. */
  ghost predicate OnSince(trace: seq<Db>, user: string, i: nat) {
    forall k | i <= k < |trace| :: IsEnabled(trace[k], user)
  }

  /** In step `i` the account's code was spent that turned it on, by the sign-in `owner`. */
  ghost predicate TurnedOnAt(site: Site, trace: seq<Db>, ops: seq<Op>, user: string, owner: string, i: nat)
    requires |trace| == |ops| + 1
  {
    && i < |ops| && !IsEnabled(trace[i], user) && OnSince(trace, user, i + 1)
    && (ops[i].OpConfirmSetup? || ops[i].OpFinishSetup?) && ops[i].token == owner
    && SpendsCode(site, trace[i], ops[i], trace[i + 1], user)
  }

  lemma TurnedStill(site: Site, trace: seq<Db>, ops: seq<Op>, user: string, owner: string, i: nat)
    requires |ops| > 0 && |trace| == |ops| + 1 && IsEnabled(trace[|ops|], user)
    requires TurnedOnAt(site, trace[..|ops|], ops[..|ops| - 1], user, owner, i)
    ensures TurnedOnAt(site, trace, ops, user, owner, i)
  {
  }

  lemma TurnedNow(site: Site, trace: seq<Db>, ops: seq<Op>, user: string)
    requires |ops| > 0 && |trace| == |ops| + 1 && StepsTo(site, trace[|ops| - 1], ops[|ops| - 1], trace[|ops|])
    requires IsEnabled(trace[|ops|], user) && !IsEnabled(trace[|ops| - 1], user)
    ensures user in trace[|ops|].log.confirmed
    ensures TurnedOnAt(site, trace, ops, user, trace[|ops|].log.confirmed[user], |ops| - 1)
  {
    TurnsOn(site, trace[|ops| - 1], ops[|ops| - 1], user);
  }

  lemma {:induction false} WasTurnedOn(site: Site, trace: seq<Db>, ops: seq<Op>, user: string)
    requires IsRun(site, trace, ops) && IsEnabled(trace[|ops|], user)
    ensures user in trace[|ops|].log.confirmed
    ensures exists i: nat :: TurnedOnAt(site, trace, ops, user, trace[|ops|].log.confirmed[user], i)
  {
    var n := |ops|;
    assert n > 0;
    assert StepsTo(site, trace[n - 1], ops[n - 1], trace[n]);
    if IsEnabled(trace[n - 1], user) {
      var before := trace[..n];
      assert IsRun(site, before, ops[..n - 1]) && before[n - 1] == trace[n - 1];
      WasTurnedOn(site, before, ops[..n - 1], user);
      TurnsOn(site, trace[n - 1], ops[n - 1], user);
      var owner := trace[n].log.confirmed[user];
      var i: nat :| TurnedOnAt(site, before, ops[..n - 1], user, owner, i);
      TurnedStill(site, trace, ops, user, owner, i);
    } else {
      TurnedNow(site, trace, ops, user);
    }
  }

  /**
   In every run, an account with two-step sign-in on had it turned on by one
   sign-in, in a step that spent a code its secret shows; and that secret was
   shown to that sign-in and to nobody else.
   */
  lemma SecretShownOnlyToItsConfirmer(site: Site, trace: seq<Db>, ops: seq<Op>, user: string, to: string)
    requires IsRun(site, trace, ops) && IsEnabled(trace[|ops|], user)
    ensures user in trace[|ops|].log.confirmed
    ensures exists i: nat :: TurnedOnAt(site, trace, ops, user, trace[|ops|].log.confirmed[user], i)
    ensures (trace[|ops|].mfa[user].secret, to) in trace[|ops|].log.shown <==> to == trace[|ops|].log.confirmed[user]
  {
    RunsKeep(site, trace, ops);
    WasTurnedOn(site, trace, ops, user);
  }

  // --- how every session came about ---

  /** In this step a code of the account was spent, and the session issued, or kept as the only one by the confirming. */
  ghost predicate Passes(site: Site, db: Db, op: Op, db': Db, user: string, token: string) {
    && SpendsCode(site, db, op, db', user)
    && token in db'.sessions && db'.sessions[token] == SiteSession(user)
    && if op.OpConfirmSetup? then token == op.token && token in db.sessions && !IsEnabled(db, user) && OnlySession(db', user, token)
       else token == op.drawn && token !in db.sessions
  }

  /** A session after a step was there before, passed in the step, or descends from a site session there before. */
  ghost predicate ComesFrom(site: Site, db: Db, op: Op, db': Db, t: string)
    requires t in db'.sessions
  {
    var session := db'.sessions[t];
    || (t in db.sessions && db.sessions[t] == session && IsEnabled(db, session.user))
    || (session.SiteSession? && Passes(site, db, op, db', session.user, t))
    || (session.AppSession? && IsEnabled(db, session.user)
        && session.parent in db.sessions && db.sessions[session.parent] == SiteSession(session.user))
  }

  lemma SessionsOfCode(site: Site, db: Db, op: Op, t: string)
    requires op.OpFinishWithCode? && Inv(db) && Allowed(db, op)
    requires t in Perform(site, db, op).sessions && IsEnabled(Perform(site, db, op), Perform(site, db, op).sessions[t].user)
    ensures ComesFrom(site, db, op, Perform(site, db, op), t)
  {
    FinishWithCodeExactly(site, db, op.token, op.typed, op.drawn, op.now);
    assert op.drawn !in db.sessions;
  }

  lemma OthersStay(site: Site, db: Db, db': Db, user: string, code: string, session: string, now: nat, t: string)
    requires TurnedOnWith(site, db, db', user, code, session, now) && t in db'.sessions && t != session
    requires IsEnabled(db', db'.sessions[t].user)
    ensures t in db.sessions && db.sessions[t] == db'.sessions[t] && IsEnabled(db, db.sessions[t].user)
  {
    var other := db'.sessions[t].user;
    assert other != user;
    SameButOne(db.mfa, db'.mfa, user, other);
  }

  lemma SameButOne(mfa: map<string, Mfa>, mfa': map<string, Mfa>, user: string, other: string)
    requires mfa' - {user} == mfa - {user} && other != user && other in mfa'
    ensures other in mfa && mfa[other] == mfa'[other]
  {
    assert other in mfa' - {user};
    assert (mfa' - {user})[other] == (mfa - {user})[other];
  }

  lemma SessionsOfSetup(site: Site, db: Db, op: Op, t: string)
    requires op.OpFinishSetup? && Inv(db) && Allowed(db, op)
    requires t in Perform(site, db, op).sessions && IsEnabled(Perform(site, db, op), Perform(site, db, op).sessions[t].user)
    ensures ComesFrom(site, db, op, Perform(site, db, op), t)
  {
    var db' := Perform(site, db, op);
    assert op.drawn !in db.sessions;
    if !SetupEnters(site, db, op.token, op.typed, op.now) {
      Codes.SetupRefused(site, db, op.token, op.typed, op.drawn, op.codes, op.now);
    } else {
      SetupEntersThen(site, db, op.token, op.typed, op.drawn, op.codes, op.now);
      if t != op.drawn {
        OthersStay(site, db, db', db.pending[op.token].user, NormaliseCode(op.typed), op.drawn, op.now, t);
      }
    }
  }

  lemma SessionsOfConfirm(site: Site, db: Db, op: Op, t: string)
    requires op.OpConfirmSetup? && Inv(db) && Allowed(db, op)
    requires t in Perform(site, db, op).sessions && IsEnabled(Perform(site, db, op), Perform(site, db, op).sessions[t].user)
    ensures ComesFrom(site, db, op, Perform(site, db, op), t)
  {
    var db' := Perform(site, db, op);
    if SiteUser(db, op.token).Some? {
      var who := SiteUser(db, op.token).value;
      ConfirmSetupExactly(site, db, who, op.typed, op.token, op.codes, op.now);
      assert db'.mfa - {who} == db.mfa - {who} && db'.sessions[t].user != who ==>
        (db'.mfa - {who})[db'.sessions[t].user] == (db.mfa - {who})[db'.sessions[t].user];
    }
  }

  /** No other operation adds a site session to an account that is on. */
  lemma SessionsOfOthers(site: Site, db: Db, op: Op, t: string)
    requires !TakesCode(op) && (op.OpSignIn? ==> Applies(site, op.primary))
    requires t in Perform(site, db, op).sessions && IsEnabled(db, Perform(site, db, op).sessions[t].user)
    ensures ComesFrom(site, db, op, Perform(site, db, op), t)
  {
    match op
    case OpSignIn(user, isAdmin, primary, drawn, now) => AfterPrimaryExactly(site, db, user, isAdmin, primary, drawn, now);
    case OpTurnOff(token, isAdmin, typed, now) =>
      if SiteUser(db, token).Some? {
        TurnOffExactly(site, db, SiteUser(db, token).value, isAdmin, typed, now);
      }
    case OpRegenerate(token, typed, codes, now) =>
      if SiteUser(db, token).Some? {
        RegenerateExactly(site, db, SiteUser(db, token).value, typed, codes, now);
      }
    case _ =>
  }

  lemma SessionsOf(site: Site, db: Db, op: Op, t: string)
    requires Inv(db) && Allowed(db, op) && (op.OpSignIn? ==> Applies(site, op.primary))
    requires t in Perform(site, db, op).sessions && IsEnabled(Perform(site, db, op), Perform(site, db, op).sessions[t].user)
    ensures ComesFrom(site, db, op, Perform(site, db, op), t)
  {
    if op.OpFinishWithCode? {
      SessionsOfCode(site, db, op, t);
    } else if op.OpFinishSetup? {
      SessionsOfSetup(site, db, op, t);
    } else if op.OpConfirmSetup? {
      SessionsOfConfirm(site, db, op, t);
    } else {
      TurnsOn(site, db, op, Perform(site, db, op).sessions[t].user);
      SessionsOfOthers(site, db, op, t);
    }
  }

  /** The site session a session is, or descends from. */
  function Root(t: string, session: Session): string {
    if session.SiteSession? then t else session.parent
  }

  /** The site session passed in step `i`, and the account has been on ever since. */
  ghost predicate PassedAt(site: Site, trace: seq<Db>, ops: seq<Op>, user: string, token: string, i: nat)
    requires |trace| == |ops| + 1
  {
    i < |ops| && Passes(site, trace[i], ops[i], trace[i + 1], user, token) && OnSince(trace, user, i + 1)
  }

  ghost predicate SessionsPassed(site: Site, trace: seq<Db>, ops: seq<Op>)
    requires |trace| == |ops| + 1
  {
    var db := trace[|ops|];
    forall t <- db.sessions | IsEnabled(db, db.sessions[t].user) ::
      exists i: nat :: PassedAt(site, trace, ops, db.sessions[t].user, Root(t, db.sessions[t]), i)
  }

  lemma PassedStill(site: Site, trace: seq<Db>, ops: seq<Op>, user: string, token: string, i: nat)
    requires |ops| > 0 && |trace| == |ops| + 1 && IsEnabled(trace[|ops|], user)
    requires PassedAt(site, trace[..|ops|], ops[..|ops| - 1], user, token, i)
    ensures PassedAt(site, trace, ops, user, token, i)
  {
  }

  lemma SessionPassed(site: Site, trace: seq<Db>, ops: seq<Op>, t: string)
    requires |ops| > 0 && IsRun(site, trace, ops) && AllAsked(site, ops)
    requires SessionsPassed(site, trace[..|ops|], ops[..|ops| - 1])
    requires t in trace[|ops|].sessions && IsEnabled(trace[|ops|], trace[|ops|].sessions[t].user)
    ensures exists i: nat :: PassedAt(site, trace, ops, trace[|ops|].sessions[t].user, Root(t, trace[|ops|].sessions[t]), i)
  {
    var n := |ops|;
    var before, db, db' := trace[..n], trace[n - 1], trace[n];
    var user, root := db'.sessions[t].user, Root(t, db'.sessions[t]);
    assert StepsTo(site, db, ops[n - 1], db');
    assert IsRun(site, before, ops[..n - 1]);
    RunsKeep(site, before, ops[..n - 1]);
    SessionsOf(site, db, ops[n - 1], t);
    if db'.sessions[t].SiteSession? && Passes(site, db, ops[n - 1], db', user, t) {
      assert PassedAt(site, trace, ops, user, root, n - 1);
    } else {
      var held := if t in db.sessions && db.sessions[t] == db'.sessions[t] then t else root;
      assert held in db.sessions && db.sessions[held].user == user && Root(held, db.sessions[held]) == root;
      var i: nat :| PassedAt(site, before, ops[..n - 1], user, root, i);
      PassedStill(site, trace, ops, user, root, i);
    }
  }

  /**
   In every run in which the second step is asked of every sign-in, each session
   of an account that is on is, or descends from, a site session that was issued
   in a step that spent a right code of the account, or that spent one to turn it
   on and was kept alone; and the account has been on ever since that step.
   */
  lemma {:induction false} SessionsPassTheSecondStep(site: Site, trace: seq<Db>, ops: seq<Op>)
    requires IsRun(site, trace, ops) && AllAsked(site, ops)
    ensures SessionsPassed(site, trace, ops)
  {
    var n := |ops|;
    if n > 0 {
      SessionsPassTheSecondStep(site, trace[..n], ops[..n - 1]);
      forall t <- trace[n].sessions | IsEnabled(trace[n], trace[n].sessions[t].user)
        ensures exists i: nat :: PassedAt(site, trace, ops, trace[n].sessions[t].user, Root(t, trace[n].sessions[t]), i)
      {
        SessionPassed(site, trace, ops, t);
      }
    }
  }

  // --- sign-ins the second step is not asked of ---

  lemma {:induction false} AlphanumericsAre(s: string)
    requires forall c <- s :: IsAlphanumeric(c)
    ensures Alphanumerics(s) == s
  {
    if s != "" {
      assert s == [s[0]] + s[1..] && s[0] in s;
      AlphanumericsAre(s[1..]);
    }
  }

  lemma DigitsAreNormal(code: string)
    requires SixDigits(code)
    ensures NormaliseCode(code) == code
  {
    AlphanumericsAre(code);
    forall i | 0 <= i < |code| ensures LowerChar(code[i]) == code[i] {
      assert code[i] in code;
    }
  }

  /** What a site needs for a code ever to be right: it can open its secrets, and shows six digits. */
  ghost predicate CodesWork(site: Site) {
    && (forall secret :: site.opens(secret))
    && (forall secret, step :: SixDigits(site.hotp(secret, step)))
  }

  /** With an account active, a provider sign-in, and setup begun from its session. */
  function Begun(): Db {
    Db({"u"}, map["u" := Mfa("s1", false, 0, "t1")], {}, map["t1" := SiteSession("u")], map[], [],
       Log(map[], {("s1", "t1")}, {"t1", "s1"}))
  }

  lemma BeginsSetup(site: Site) returns (trace: seq<Db>, ops: seq<Op>)
    requires !site.forProviders
    ensures IsRun(site, trace, ops) && |ops| == 3 && trace[3] == Begun()
    ensures !TakesCode(ops[0]) && !TakesCode(ops[1]) && !TakesCode(ops[2])
  {
    ops := [OpSetActive("u", true), OpSignIn("u", false, Provider, "t1", 0), OpBeginSetup("t1", "s1")];
    var d1 := Perform(site, Empty, ops[0]);
    var d2 := Perform(site, d1, ops[1]);
    var d3 := Perform(site, d2, ops[2]);
    trace := [Empty, d1, d2, d3];
    assert d1 == Db({"u"}, map[], {}, map[], map[], [], Log(map[], {}, {}));
    assert d2 == Db({"u"}, map[], {}, map["t1" := SiteSession("u")], map[], [], Log(map[], {}, {"t1"}));
    assert d3 == Begun();
    assert StepsTo(site, trace[0], ops[0], trace[1]) && StepsTo(site, trace[1], ops[1], trace[2]);
    assert StepsTo(site, trace[2], ops[2], trace[3]);
  }

  /** The setup begun is confirmed. */
  lemma ConfirmsSetup(site: Site) returns (db: Db, op: Op)
    requires CodesWork(site)
    ensures op.OpConfirmSetup? && StepsTo(site, Begun(), op, db)
    ensures "u" in db.active && IsEnabled(db, "u") && db.log.used == {"t1", "s1"}
    ensures forall t <- db.sessions :: t == "t1"
  {
    var code := site.hotp("s1", 1);
    op := OpConfirmSetup("t1", code, {}, 30);
    db := Perform(site, Begun(), op);
    DigitsAreNormal(code);
    assert Totp.Near(1, 30);
    assert AppCode(site, Begun(), "u", code, SetupBy("t1"), 30);
    ConfirmSetupExactly(site, Begun(), "u", code, "t1", {}, 30);
    AcceptsRightCodes(site, Begun(), "u", code, SetupBy("t1"), false, 30);
  }

  lemma TurnsItOn(site: Site) returns (trace: seq<Db>, ops: seq<Op>)
    requires CodesWork(site) && !site.forProviders
    ensures IsRun(site, trace, ops) && |ops| == 4
    ensures forall i | 0 <= i < 3 :: !TakesCode(ops[i])
    ensures "u" in trace[4].active && IsEnabled(trace[4], "u") && trace[4].log.used == {"t1", "s1"}
    ensures forall t <- trace[4].sessions :: t == "t1"
  {
    trace, ops := BeginsSetup(site);
    var db, op := ConfirmsSetup(site);
    var before, opsBefore := trace, ops;
    trace, ops := trace + [db], ops + [op];
    forall i | 0 <= i < |ops| ensures StepsTo(site, trace[i], ops[i], trace[i + 1]) {
      assert i < 3 ==> StepsTo(site, before[i], opsBefore[i], before[i + 1]);
    }
  }

  /** One more provider sign-in has a session and no code. */
  lemma EntersWithoutACode(site: Site) returns (trace: seq<Db>, ops: seq<Op>)
    requires CodesWork(site) && !site.forProviders
    ensures IsRun(site, trace, ops) && !SessionsPassed(site, trace, ops)
  {
    var before, opsBefore := TurnsItOn(site);
    var op := OpSignIn("u", false, Provider, "t2", 0);
    var last := Perform(site, before[4], op);
    trace, ops := before + [last], opsBefore + [op];
    forall i | 0 <= i < |ops| ensures StepsTo(site, trace[i], ops[i], trace[i + 1]) {
      if i < 4 {
        assert StepsTo(site, before[i], opsBefore[i], before[i + 1]);
      } else {
        assert Allowed(before[4], op);
      }
    }
    assert "t2" in last.sessions && last.sessions["t2"] == SiteSession("u") && IsEnabled(last, "u");
    forall i: nat | i < 5 ensures !Passes(site, trace[i], ops[i], trace[i + 1], "u", "t2") {
      assert i == 3 ==> "t2" !in trace[4].sessions;
      assert i != 3 ==> !TakesCode(ops[i]);
    }
    assert trace[|ops|] == last && Root("t2", last.sessions["t2"]) == "t2";
  }

  /**
   Every session of an account that is on passed the second step, in every run
   whatsoever, exactly when the site asks it of provider sign-ins too.
   */
  lemma EveryDoorPassesExactlyWhen(site: Site)
    requires CodesWork(site)
    ensures (forall trace, ops :: IsRun(site, trace, ops) ==> SessionsPassed(site, trace, ops)) <==> site.forProviders
  {
    if site.forProviders {
      forall trace, ops | IsRun(site, trace, ops) ensures SessionsPassed(site, trace, ops) {
        SessionsPassTheSecondStep(site, trace, ops);
      }
    } else {
      var trace, ops := EntersWithoutACode(site);
    }
  }
}
