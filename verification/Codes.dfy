/**
 What the sign-in operations come to, said of the tables before and after and of
 the code that was typed, not of the steps in between (src/accounts/mfa.rs).
 */
module Codes {
  import opened Wrappers
  import opened Text
  import opened Attempts
  import opened SignIn
  import Totp

  // --- a right code, and its spending ---

  /** The account has a secret that is on, or one that is not and that this sign-in began. */
  predicate HasSecret(db: Db, user: string, which: Secret) {
    && user in db.mfa && db.mfa[user].enabled == which.Enabled?
    && (which.SetupBy? ==> db.mfa[user].begunBy == which.token)
  }

  /** The authenticator shows this code for the secret, at a step near the clock that is later than any spent. */
  ghost predicate AppCode(site: Site, db: Db, user: string, code: string, which: Secret, now: nat) {
    && HasSecret(db, user, which) && site.opens(db.mfa[user].secret)
    && exists step: nat :: step > db.mfa[user].lastStep && Totp.Near(step, now) && site.hotp(db.mfa[user].secret, step) == code
  }

  /** Six digits are a code of the app; eight characters, where they are taken, a recovery code that is left. */
  ghost predicate RightCode(site: Site, db: Db, user: string, code: string, which: Secret, allowRecovery: bool, now: nat) {
    if SixDigits(code) then AppCode(site, db, user, code, which, now)
    else allowRecovery && |code| == 8 && (user, code) in db.recovery
  }

  /** The account has such a secret, and the site can no longer open it: a code of the app cannot be checked. */
  ghost predicate Unreadable(site: Site, db: Db, user: string, code: string, which: Secret) {
    SixDigits(code) && HasSecret(db, user, which) && !site.opens(db.mfa[user].secret)
  }

  /** The last step of the same secret rose to one near the clock that shows the code. */
  ghost predicate SpendsStep(site: Site, db: Db, db': Db, user: string, code: string, now: nat) {
    && user in db.mfa && user in db'.mfa && db'.mfa[user].secret == db.mfa[user].secret
    && db.mfa[user].lastStep < db'.mfa[user].lastStep
    && site.opens(db.mfa[user].secret) && Totp.Near(db'.mfa[user].lastStep, now)
    && site.hotp(db.mfa[user].secret, db'.mfa[user].lastStep) == code
  }

  /** That, or the recovery code is no longer left. */
  ghost predicate Spends(site: Site, db: Db, db': Db, user: string, code: string, now: nat) {
    SpendsStep(site, db, db', user, code, now) || ((user, code) in db.recovery && (user, code) !in db'.recovery)
  }

  /** Nothing but the account's last step, or its recovery codes, is another. */
  ghost predicate OnlySpends(db: Db, db': Db, user: string) {
    && db'.active == db.active && db'.sessions == db.sessions && db'.pending == db.pending
    && db'.failures == db.failures && db'.log == db.log
    && (db'.mfa == db.mfa || (user in db.mfa && exists step :: db'.mfa == db.mfa[user := db.mfa[user].(lastStep := step)]))
    && (forall left <- db'.recovery :: left in db.recovery)
    && (forall left <- db.recovery :: left.0 != user ==> left in db'.recovery)
  }

  /** Of one step, or any before it, no second use moves it. */
  lemma StepsAdvanceOnce(db: Db, user: string, step: nat, again: nat)
    requires AdvancedStep(db, user, step).1 && again <= step
    ensures !AdvancedStep(AdvancedStep(db, user, step).0, user, again).1
    ensures AdvancedStep(AdvancedStep(db, user, step).0, user, again).0 == AdvancedStep(db, user, step).0
  {
  }

  /** Nor is a recovery code spent twice, and spending it leaves every other one. */
  lemma RecoveryCodesSpendOnce(db: Db, user: string, code: string, other: (string, string))
    requires SpentRecoveryCode(db, user, code).1
    ensures !SpentRecoveryCode(SpentRecoveryCode(db, user, code).0, user, code).1
    ensures other in SpentRecoveryCode(db, user, code).0.recovery <==> other in db.recovery && other != (user, code)
  {
  }

  /** A code is accepted exactly when it is right, and then it is spent; anything else changes nothing. */
  lemma AcceptsRightCodes(site: Site, db: Db, user: string, code: string, which: Secret, allowRecovery: bool, now: nat)
    ensures var (db', used) := AcceptCode(site, db, user, code, which, allowRecovery, now);
            && (used.Ok? && used.value.Some? <==> RightCode(site, db, user, code, which, allowRecovery, now))
            && (used.Ok? && used.value.Some? ==> Spends(site, db, db', user, code, now) && OnlySpends(db, db', user))
            && (used.Ok? && used.value.Some? && SixDigits(code) ==> SpendsStep(site, db, db', user, code, now))
            && (!(used.Ok? && used.value.Some?) ==> db' == db)
            && (used.Err? <==> Unreadable(site, db, user, code, which))
  {
    var row := MfaSecret(db, user, which);
    if SixDigits(code) && row.Some? && site.opens(row.value.secret) {
      var step := Totp.MatchingStep(site.hotp, row.value.secret, code, now, row.value.lastStep);
      if step.Some? {
        var (db', moved) := AdvancedStep(db, user, step.value);
        assert db'.mfa == db.mfa[user := db.mfa[user].(lastStep := step.value)];
      }
    }
  }

  // --- under the account's limit ---

  /** Fewer than ten codes of the account counted in the last fifteen minutes. */
  predicate HasRoomNow(db: Db, user: string, now: nat) {
    Counted(db.failures, user, if now > 900 then now - 900 else 0) < 10
  }

  lemma {:induction false} CountedPruned(rows: seq<Count>, user: string, from: nat, since: nat)
    requires from <= since
    ensures Counted(Pruned(rows, from), user, since) == Counted(rows, user, since)
  {
    if rows != [] {
      CountedPruned(rows[1..], user, from, since);
      assert ([rows[0]] + Pruned(rows[1..], from))[1..] == Pruned(rows[1..], from);
    }
  }

  lemma RoomIs(db: Db, user: string, now: nat)
    ensures HasRoom(db.failures, Count(user, now), Since(now, ACCOUNT_WINDOW), MAX_FAILURES_PER_ACCOUNT) <==> HasRoomNow(db, user, now)
    ensures TriedAttempt(db, user, now).1 <==> HasRoomNow(db, user, now)
  {
    CountedPruned(db.failures, user, Since(now, ACCOUNT_WINDOW), Since(now, ACCOUNT_WINDOW));
  }

  /** At the limit nothing is checked; below it a right code, and only that, is spent. */
  lemma CountedExactly(site: Site, db: Db, user: string, typed: string, which: Secret, allowRecovery: bool, now: nat)
    ensures var (db', used) := AcceptCounted(site, db, user, typed, which, allowRecovery, now);
            var code := NormaliseCode(typed);
            && (used.None? <==> !HasRoomNow(db, user, now))
            && (Good(used) <==> HasRoomNow(db, user, now) && RightCode(site, db, user, code, which, allowRecovery, now))
            && (Good(used) ==> Spends(site, db, db', user, code, now) && OnlySpends(db.(failures := db'.failures), db', user))
            && (Good(used) && SixDigits(code) ==> SpendsStep(site, db, db', user, code, now))
            && (!Good(used) ==> db' == db.(failures := db'.failures))
            && (used.Some? && used.value.Err? <==> HasRoomNow(db, user, now) && Unreadable(site, db, user, code, which))
  {
    RoomIs(db, user, now);
    if HasRoomNow(db, user, now) {
      CheckedBelowLimit(site, db, TriedAttempt(db, user, now).0, user, NormaliseCode(typed), which, allowRecovery, now);
    }
  }

  lemma CheckedBelowLimit(site: Site, db: Db, counted: Db, user: string, code: string, which: Secret, allowRecovery: bool, now: nat)
    requires counted == db.(failures := counted.failures)
    ensures var (checked, used) := AcceptCode(site, counted, user, code, which, allowRecovery, now);
            && (used.Ok? && used.value.Some? <==> RightCode(site, db, user, code, which, allowRecovery, now))
            && (used.Ok? && used.value.Some? ==> Spends(site, db, checked, user, code, now)
                                                 && OnlySpends(db.(failures := checked.failures), checked, user))
            && (used.Ok? && used.value.Some? && SixDigits(code) ==> SpendsStep(site, db, checked, user, code, now))
            && (!(used.Ok? && used.value.Some?) ==> checked == counted)
            && (used.Err? <==> Unreadable(site, db, user, code, which))
  {
    AcceptsRightCodes(site, counted, user, code, which, allowRecovery, now);
  }

  /** Taking a row back after it was added leaves as many as there were. */
  lemma {:induction false} CountedReleased(rows: seq<Count>, c: Count, user: string, since: nat)
    requires c in rows
    ensures Counted(rows, user, since) == Counted(Released(rows, c), user, since) + if c.user == user && c.at > since then 1 else 0
  {
    if rows[0] != c {
      assert ([rows[0]] + Released(rows[1..], c))[1..] == Released(rows[1..], c);
      CountedReleased(rows[1..], c, user, since);
    }
  }

  /**
   Of all checks under the limit only a wrong one leaves a count: of every account
   the rows of the last fifteen minutes, or of any less, are as many as before, and
   one more of this one only when its code was wrong.
   */
  lemma OnlyWrongCodesCount(site: Site, db: Db, user: string, typed: string, which: Secret, allowRecovery: bool, now: nat,
                            who: string, since: nat)
    requires now <= since + 900
    ensures var (db', used) := AcceptCounted(site, db, user, typed, which, allowRecovery, now);
            Counted(db'.failures, who, since) ==
            Counted(db.failures, who, since) + if used == Some(Ok(None)) && who == user && since < now then 1 else 0
  {
    var counted := TriedAttempt(db, user, now).0;
    AcceptsRightCodes(site, counted, user, NormaliseCode(typed), which, allowRecovery, now);
    RoomIs(db, user, now);
    if HasRoomNow(db, user, now) {
      CountedPruned(db.failures, who, Since(now, ACCOUNT_WINDOW), since);
      CountedAppend(Pruned(db.failures, Since(now, ACCOUNT_WINDOW)), Count(user, now), who, since);
      CountedReleased(counted.failures, Count(user, now), who, since);
    }
  }

  /** At the limit nothing changes; a wrong code stays counted. */
  lemma WrongCodesStayCounted(site: Site, db: Db, user: string, typed: string, which: Secret, allowRecovery: bool, now: nat)
    ensures var (db', used) := AcceptCounted(site, db, user, typed, which, allowRecovery, now);
            && (used.None? ==> db' == db)
            && (used == Some(Ok(None)) ==> Count(user, now) in db'.failures)
  {
    var counted := TriedAttempt(db, user, now).0;
    AcceptsRightCodes(site, counted, user, NormaliseCode(typed), which, allowRecovery, now);
  }

  // --- signing in ---

  /** A row of that stage, not expired, of an account that is not disabled. */
  predicate Waits(db: Db, token: string, stage: Stage, now: nat) {
    && token in db.pending && db.pending[token].stage == stage
    && now <= db.pending[token].expiresAt && db.pending[token].user in db.active
  }

  predicate HasTries(db: Db, token: string) {
    token in db.pending && db.pending[token].failures < 5
  }

  /** A try is had exactly while fewer than five were, and counted; with none left the sign-in is gone. */
  lemma FiveTries(db: Db, token: string)
    ensures var (db', r) := TakeTry(db, token);
            && (r.Ok? <==> HasTries(db, token))
            && (r.Ok? ==> && 1 <= r.value <= 5 && r.value == db.pending[token].failures + 1
                          && db' == db.(pending := db.pending[token := db.pending[token].(failures := r.value)]))
            && (r.Err? ==> r.error == Ended && db' == db.(pending := db.pending - {token}))
  {
  }

  /** The same code is right before a try is taken and after. */
  lemma SameCodes(site: Site, db: Db, db': Db, user: string, code: string, which: Secret, allowRecovery: bool, now: nat)
    requires db'.mfa == db.mfa && db'.recovery == db.recovery && db'.failures == db.failures
    ensures RightCode(site, db', user, code, which, allowRecovery, now) <==> RightCode(site, db, user, code, which, allowRecovery, now)
    ensures Unreadable(site, db', user, code, which) <==> Unreadable(site, db, user, code, which)
    ensures HasRoomNow(db', user, now) <==> HasRoomNow(db, user, now)
  {
  }

  lemma TriesAreApart(site: Site, db: Db, db': Db, user: string, code: string, which: Secret, allowRecovery: bool, now: nat)
    requires db'.mfa == db.mfa && db'.recovery == db.recovery && db'.failures == db.failures
    ensures RightCode(site, db', user, code, which, allowRecovery, now) <==> RightCode(site, db, user, code, which, allowRecovery, now)
    ensures HasRoomNow(db', user, now) <==> HasRoomNow(db, user, now)
    ensures forall later :: Spends(site, db', later, user, code, now) ==> Spends(site, db, later, user, code, now)
  {
    SameCodes(site, db, db', user, code, which, allowRecovery, now);
  }

  /** What the code page answers. */
  ghost predicate CodeEnters(site: Site, db: Db, token: string, typed: string, now: nat) {
    && Waits(db, token, Code, now) && HasTries(db, token)
    && HasRoomNow(db, db.pending[token].user, now)
    && RightCode(site, db, db.pending[token].user, NormaliseCode(typed), Enabled, true, now)
  }

  /** A session follows a sign-in exactly, its code spent, and the sign-in is over. */
  ghost predicate EnteredWith(site: Site, db: Db, db': Db, token: string, user: string, code: string, session: string, now: nat) {
    && db'.sessions == db.sessions[session := SiteSession(user)] && db'.pending == db.pending - {token}
    && Spends(site, db, db', user, code, now)
    && forall u :: IsEnabled(db', u) <==> IsEnabled(db, u)
  }

  lemma RightCodeEnters(site: Site, db: Db, token: string, user: string, typed: string, session: string, now: nat)
    requires user in db.active && HasRoomNow(db, user, now)
    requires RightCode(site, db, user, NormaliseCode(typed), Enabled, true, now)
    ensures var (checked, used) := AcceptCounted(site, db, user, typed, Enabled, true, now);
            var (db', r) := Finish(checked, token, user, session);
            Good(used) && r == Ok(session) && EnteredWith(site, db, db', token, user, NormaliseCode(typed), session, now)
  {
    CountedExactly(site, db, user, typed, Enabled, true, now);
  }

  /** Otherwise nothing changes but counts and pending sign-ins. */
  ghost predicate OnlyCounts(db: Db, db': Db) {
    db' == db.(pending := db'.pending, failures := db'.failures)
  }

  /** A code that does not enter: one try more, or with the fifth the end. */
  ghost function AfterTry(db: Db, token: string, wrong: bool): map<string, Pending>
    requires token in db.pending
  {
    var p := db.pending[token];
    if p.failures >= 5 || (wrong && p.failures == 4) then db.pending - {token}
    else db.pending[token := p.(failures := p.failures + 1)]
  }

  /** The answer to a code that does not enter, by the first of the reasons that holds. */
  ghost function CodeRefusal(site: Site, db: Db, token: string, typed: string, now: nat): Refusal {
    if !Waits(db, token, Code, now) then Expired else
    var p := db.pending[token];
    if p.failures >= 5 then Ended
    else if !HasRoomNow(db, p.user, now) then Locked
    else if Unreadable(site, db, p.user, NormaliseCode(typed), Enabled) then Failed("The two-step secret could not be read.")
    else if p.failures == 4 then Ended
    else WrongCode(4 - p.failures)
  }

  /** Whether it was checked, and wrong. */
  ghost predicate CodeIsWrong(site: Site, db: Db, token: string, typed: string, now: nat) {
    && HasTries(db, token) && HasRoomNow(db, db.pending[token].user, now)
    && !Unreadable(site, db, db.pending[token].user, NormaliseCode(typed), Enabled)
    && !RightCode(site, db, db.pending[token].user, NormaliseCode(typed), Enabled, true, now)
  }

  lemma OtherCodesDoNot(site: Site, db: Db, token: string, user: string, typed: string, tries: nat, now: nat)
    requires !(HasRoomNow(db, user, now) && RightCode(site, db, user, NormaliseCode(typed), Enabled, true, now))
    ensures var (checked, used) := AcceptCounted(site, db, user, typed, Enabled, true, now);
            var ended := Wronged(checked, token, tries).0;
            && !Good(used) && OnlyCounts(db, checked) && OnlyCounts(db, ended)
            && (used.None? <==> !HasRoomNow(db, user, now))
            && (used.Some? && used.value.Err? ==> used.value.error == "The two-step secret could not be read.")
            && (used.Some? && used.value.Err? <==> HasRoomNow(db, user, now) && Unreadable(site, db, user, NormaliseCode(typed), Enabled))
            && checked.pending == db.pending
            && ended.pending == if tries >= 5 then db.pending - {token} else db.pending
  {
    CountedExactly(site, db, user, typed, Enabled, true, now);
  }

  /** Which reason it is, with a try left. */
  lemma RefusalIs(site: Site, db: Db, token: string, typed: string, now: nat)
    requires Waits(db, token, Code, now) && HasTries(db, token) && !CodeEnters(site, db, token, typed, now)
    ensures var (p, refusal) := (db.pending[token], CodeRefusal(site, db, token, typed, now));
            var unreadable := Unreadable(site, db, p.user, NormaliseCode(typed), Enabled);
            && (!HasRoomNow(db, p.user, now) ==> refusal == Locked)
            && (HasRoomNow(db, p.user, now) && unreadable ==> refusal == Failed("The two-step secret could not be read."))
            && (CodeIsWrong(site, db, token, typed, now) <==> HasRoomNow(db, p.user, now) && !unreadable)
            && (CodeIsWrong(site, db, token, typed, now) ==> refusal == if p.failures == 4 then Ended else WrongCode(4 - p.failures))
  {
  }

  /** With a try taken, the answer follows from what was checked. */
  lemma CodeTried(site: Site, db: Db, tried: Db, token: string, user: string, n: nat, typed: string, now: nat)
    requires Waits(db, token, Code, now) && HasTries(db, token) && !CodeEnters(site, db, token, typed, now)
    requires user == db.pending[token].user && n == db.pending[token].failures + 1
    requires tried == db.(pending := db.pending[token := db.pending[token].(failures := n)])
    ensures var (checked, used) := AcceptCounted(site, tried, user, typed, Enabled, true, now);
            var (ended, refusal) := Wronged(checked, token, n);
            var wrong := CodeIsWrong(site, db, token, typed, now);
            && !Good(used) && (used == Some(Ok(None)) <==> wrong) && OnlyCounts(db, checked) && OnlyCounts(db, ended)
            && (used.None? ==> CodeRefusal(site, db, token, typed, now) == Locked)
            && (used.Some? && used.value.Err? ==> CodeRefusal(site, db, token, typed, now) == Failed(used.value.error))
            && (wrong ==> refusal == CodeRefusal(site, db, token, typed, now))
            && (if wrong then ended else checked).pending == AfterTry(db, token, wrong)
  {
    SameCodes(site, db, tried, user, NormaliseCode(typed), Enabled, true, now);
    RefusalIs(site, db, token, typed, now);
    OtherCodesDoNot(site, tried, token, user, typed, n, now);
    assert tried.pending - {token} == db.pending - {token};
  }

  lemma NoTriesLeft(site: Site, db: Db, token: string, typed: string, session: string, now: nat)
    requires Waits(db, token, Code, now) && !HasTries(db, token)
    ensures FinishWithCode(site, db, token, typed, session, now) == (db.(pending := db.pending - {token}), Err(Ended))
    ensures CodeRefusal(site, db, token, typed, now) == Ended
  {
    FiveTries(db, token);
  }

  lemma TryRefused(site: Site, db: Db, token: string, typed: string, session: string, now: nat)
    requires Waits(db, token, Code, now) && HasTries(db, token) && !CodeEnters(site, db, token, typed, now)
    ensures var (db', r) := FinishWithCode(site, db, token, typed, session, now);
            && r == Err(CodeRefusal(site, db, token, typed, now)) && r.error != Expired && OnlyCounts(db, db')
            && db'.pending == AfterTry(db, token, CodeIsWrong(site, db, token, typed, now))
  {
    FiveTries(db, token);
    CodeTried(site, db, TakeTry(db, token).0, token, db.pending[token].user, db.pending[token].failures + 1, typed, now);
  }

  lemma CodeRefused(site: Site, db: Db, token: string, typed: string, session: string, now: nat)
    requires !CodeEnters(site, db, token, typed, now)
    ensures var (db', r) := FinishWithCode(site, db, token, typed, session, now);
            && r == Err(CodeRefusal(site, db, token, typed, now)) && OnlyCounts(db, db')
            && (r.error == Expired ==> db' == db)
            && (r.error != Expired ==> db'.pending == AfterTry(db, token, CodeIsWrong(site, db, token, typed, now)))
  {
    if !Waits(db, token, Code, now) {
      assert FinishWithCode(site, db, token, typed, session, now) == (db, Err(Expired));
    } else if HasTries(db, token) {
      TryRefused(site, db, token, typed, session, now);
    } else {
      NoTriesLeft(site, db, token, typed, session, now);
    }
  }

  lemma CodeEntersThen(site: Site, db: Db, token: string, typed: string, session: string, now: nat)
    requires CodeEnters(site, db, token, typed, now)
    ensures var (db', r) := FinishWithCode(site, db, token, typed, session, now);
            r == Ok(session) && EnteredWith(site, db, db', token, db.pending[token].user, NormaliseCode(typed), session, now)
  {
    var user, code := db.pending[token].user, NormaliseCode(typed);
    var (tried, tries) := TakeTry(db, token);
    FiveTries(db, token);
    TriesAreApart(site, db, tried, user, code, Enabled, true, now);
    RightCodeEnters(site, tried, token, user, typed, session, now);
    assert tried.pending - {token} == db.pending - {token};
  }

  /**
   A session follows exactly when the sign-in waits for a code, has had fewer than
   five, the account is under its limit, and the code is right; then that code is
   spent and the sign-in over. Otherwise nothing changes but counts: the answer is
   the first reason there is, and the sign-in has had one try more, or with a fifth
   wrong code is gone.
   */
  lemma FinishWithCodeExactly(site: Site, db: Db, token: string, typed: string, session: string, now: nat)
    ensures var (db', r) := FinishWithCode(site, db, token, typed, session, now);
            && (r.Ok? <==> CodeEnters(site, db, token, typed, now))
            && (r.Ok? ==> r.value == session && EnteredWith(site, db, db', token, db.pending[token].user, NormaliseCode(typed), session, now))
            && (r.Err? ==> OnlyCounts(db, db') && r.error == CodeRefusal(site, db, token, typed, now))
            && (r == Err(Expired) ==> db' == db)
            && (r.Err? && r.error != Expired ==> db'.pending == AfterTry(db, token, CodeIsWrong(site, db, token, typed, now)))
  {
    if CodeEnters(site, db, token, typed, now) {
      CodeEntersThen(site, db, token, typed, session, now);
    } else {
      CodeRefused(site, db, token, typed, session, now);
    }
  }

  /** The setup under way is the one this sign-in began. */
  ghost predicate OwnSetup(db: Db, token: string) {
    token in db.pending && HasSecret(db, db.pending[token].user, SetupBy(token))
  }

  /** The answer to a setup code that does not enter, by the first of the reasons that holds. */
  ghost function SetupRefusal(site: Site, db: Db, token: string, typed: string, now: nat): Refusal {
    if !Waits(db, token, Setup, now) || !OwnSetup(db, token) then Expired else
    var p := db.pending[token];
    if p.failures >= 5 then Ended
    else if Unreadable(site, db, p.user, NormaliseCode(typed), SetupBy(token)) then Failed("The two-step secret could not be read.")
    else if p.failures == 4 then Ended
    else WrongCode(4 - p.failures)
  }

  /** What is pending then: the same if it did not wait, not this if the setup is another's, else with one try more. */
  ghost function AfterSetupTry(site: Site, db: Db, token: string, typed: string, now: nat): map<string, Pending> {
    if !Waits(db, token, Setup, now) then db.pending
    else if !OwnSetup(db, token) then db.pending - {token}
    else AfterTry(db, token, !Unreadable(site, db, db.pending[token].user, NormaliseCode(typed), SetupBy(token)))
  }

  /** What the setup page answers. */
  ghost predicate SetupEnters(site: Site, db: Db, token: string, typed: string, now: nat) {
    && Waits(db, token, Setup, now) && HasTries(db, token)
    && RightCode(site, db, db.pending[token].user, NormaliseCode(typed), SetupBy(token), false, now)
  }

  /** The account has only this session left, and nothing of it is pending. */
  ghost predicate OnlySession(db: Db, user: string, keep: string) {
    && (forall t <- db.sessions :: db.sessions[t].user == user ==> t == keep)
    && (forall t <- db.pending :: db.pending[t].user != user)
  }

  /** Turning it on: the same secret, on; every other session and every pending sign-in of the account gone. */
  lemma EnableExactly(db: Db, user: string, keep: Option<string>, owner: string, codes: set<string>)
    ensures var (db', r) := Enable(db, user, keep, owner, codes);
            && (r.Ok? <==> user in db.mfa && !db.mfa[user].enabled)
            && (r.Err? ==> db' == db)
            && (r.Ok? ==> && IsEnabled(db', user) && db'.mfa[user] == Mfa(db.mfa[user].secret, true, db.mfa[user].lastStep, "")
                          && db'.mfa - {user} == db.mfa - {user}
                          && (forall t <- db'.pending :: db'.pending[t].user != user)
                          && (forall t :: t in db'.sessions <==> t in db.sessions && (db.sessions[t].user == user ==> Some(t) == keep))
                          && (forall t <- db'.sessions :: db'.sessions[t] == db.sessions[t])
                          && (forall code :: (user, code) in db'.recovery <==> code in codes)
                          && OthersAsBefore(db, db', user))
  {
  }

  /** On, signed in with that session alone, and the code spent that turned it on. */
  ghost predicate TurnedOnWith(site: Site, db: Db, db': Db, user: string, code: string, session: string, now: nat) {
    && session in db'.sessions && db'.sessions[session] == SiteSession(user)
    && !IsEnabled(db, user) && IsEnabled(db', user) && OnlySession(db', user, session)
    && Spends(site, db, db', user, code, now)
    && (forall t <- db'.sessions :: t != session ==> t in db.sessions && db'.sessions[t] == db.sessions[t])
    && db'.mfa - {user} == db.mfa - {user}
    && OthersAsBefore(db, db', user)
  }

  /** Nobody else's sign-ins, sessions or recovery codes are touched, and no counts. */
  ghost predicate OthersAsBefore(db: Db, db': Db, user: string) {
    && db'.active == db.active && db'.failures == db.failures
    && (forall t :: t in db'.pending <==> t in db.pending && db.pending[t].user != user)
    && (forall t <- db'.pending :: db'.pending[t] == db.pending[t])
    && (forall t <- db.sessions :: db.sessions[t].user != user ==> t in db'.sessions)
    && (forall left: (string, string) :: left.0 != user ==> (left in db'.recovery <==> left in db.recovery))
  }

  lemma RightSetupCode(site: Site, db: Db, user: string, code: string, owner: string, now: nat)
    requires RightCode(site, db, user, code, SetupBy(owner), false, now)
    ensures var checked := AcceptCode(site, db, user, code, SetupBy(owner), false, now).0;
            && user in checked.mfa && checked.mfa[user] == db.mfa[user].(lastStep := checked.mfa[user].lastStep)
            && !db.mfa[user].enabled && checked.mfa - {user} == db.mfa - {user}
            && Spends(site, db, checked, user, code, now) && checked.recovery == db.recovery
  {
    AcceptsRightCodes(site, db, user, code, SetupBy(owner), false, now);
    assert SixDigits(code);
  }

  lemma SetupTurnsOn(site: Site, db: Db, token: string, user: string, code: string, session: string, codes: set<string>, now: nat)
    requires RightCode(site, db, user, code, SetupBy(token), false, now) && user in db.active
    requires token in db.pending && db.pending[token].user == user
    ensures var checked := AcceptCode(site, db, user, code, SetupBy(token), false, now).0;
            var (on, turned) := Enable(checked, user, None, token, codes);
            var (db', r) := Finish(on, token, user, session);
            && turned.Ok? && r == Ok(session) && TurnedOnWith(site, db, db', user, code, session, now)
            && forall c :: (user, c) in db'.recovery <==> c in codes
  {
    var checked := AcceptCode(site, db, user, code, SetupBy(token), false, now).0;
    AcceptsRightCodes(site, db, user, code, SetupBy(token), false, now);
    RightSetupCode(site, db, user, code, token, now);
    EnableExactly(checked, user, None, token, codes);
  }

  lemma SetupEntersThen(site: Site, db: Db, token: string, typed: string, session: string, codes: set<string>, now: nat)
    requires SetupEnters(site, db, token, typed, now)
    ensures var (db', r) := FinishSetup(site, db, token, typed, session, codes, now);
            && r == Ok(session) && TurnedOnWith(site, db, db', db.pending[token].user, NormaliseCode(typed), session, now)
            && forall c :: (db.pending[token].user, c) in db'.recovery <==> c in codes
  {
    var user, code := db.pending[token].user, NormaliseCode(typed);
    var (tried, tries) := TakeTry(db, token);
    FiveTries(db, token);
    TriesAreApart(site, db, tried, user, code, SetupBy(token), false, now);
    AcceptsRightCodes(site, tried, user, code, SetupBy(token), false, now);
    SetupTurnsOn(site, tried, token, user, code, session, codes, now);
  }

  lemma SetupRefused(site: Site, db: Db, token: string, typed: string, session: string, codes: set<string>, now: nat)
    requires !SetupEnters(site, db, token, typed, now)
    ensures var (db', r) := FinishSetup(site, db, token, typed, session, codes, now);
            r == Err(SetupRefusal(site, db, token, typed, now)) && db' == db.(pending := AfterSetupTry(site, db, token, typed, now))
  {
    if Waits(db, token, Setup, now) && OwnSetup(db, token) {
      var user, code := db.pending[token].user, NormaliseCode(typed);
      var (tried, tries) := TakeTry(db, token);
      FiveTries(db, token);
      TriesAreApart(site, db, tried, user, code, SetupBy(token), false, now);
      AcceptsRightCodes(site, tried, user, code, SetupBy(token), false, now);
      assert tried.pending - {token} == db.pending - {token};
    }
  }

  /**
   It is turned on, and a session follows, exactly when the setup is still this
   sign-in's own, a try is left and the code is right for it; then
   the account has that session alone. Otherwise nothing is turned on.
   */
  lemma FinishSetupExactly(site: Site, db: Db, token: string, typed: string, session: string, codes: set<string>, now: nat)
    ensures var (db', r) := FinishSetup(site, db, token, typed, session, codes, now);
            && (r.Ok? <==> SetupEnters(site, db, token, typed, now))
            && (r.Ok? ==> r.value == session
                          && TurnedOnWith(site, db, db', db.pending[token].user, NormaliseCode(typed), session, now))
            && (r.Ok? ==> forall c :: (db.pending[token].user, c) in db'.recovery <==> c in codes)
            && (r.Err? ==> && r.error == SetupRefusal(site, db, token, typed, now)
                           && db' == db.(pending := AfterSetupTry(site, db, token, typed, now)))
  {
    if SetupEnters(site, db, token, typed, now) {
      SetupEntersThen(site, db, token, typed, session, codes, now);
    } else {
      SetupRefused(site, db, token, typed, session, codes, now);
    }
  }

  /** The site has two-step sign-in required of this person. */
  predicate MustHave(site: Site, isAdmin: bool) {
    site.policy == Everyone || (site.policy == Admins && isAdmin)
  }

  /** No session yet, and one sign-in more that waits, beside those that have not expired. */
  ghost predicate WaitsFrom(db: Db, db': Db, token: string, p: Pending, now: nat) {
    && db'.sessions == db.sessions && token in db'.pending && db'.pending[token] == p
    && (forall t :: t in db'.pending && t != token <==> t in db.pending && t != token && now <= db.pending[t].expiresAt)
    && (forall t <- db'.pending | t != token :: db'.pending[t] == db.pending[t])
  }

  /**
   After the first proof: with it on, and the second step asked of this proof,
   no session, only a sign-in that waits for a code with every try left; with it
   owed, one that waits for setup; else a session, unless the account is disabled.
   */
  lemma AfterPrimaryExactly(site: Site, db: Db, user: string, isAdmin: bool, primary: Primary, token: string, now: nat)
    ensures var (db', r) := AfterPrimary(site, db, user, isAdmin, primary, token, now);
            var asked := primary == Password || site.forProviders;
            && (r == Ok(CodeStep(token)) <==> asked && IsEnabled(db, user))
            && (r == Ok(SetupStep(token)) <==> asked && !IsEnabled(db, user) && MustHave(site, isAdmin))
            && (r == Ok(SessionStep(token)) <==> user in db.active && !(asked && (IsEnabled(db, user) || MustHave(site, isAdmin))))
            && (r == Ok(CodeStep(token)) ==> WaitsFrom(db, db', token, Pending(user, Code, now + 300, 0), now))
            && (r == Ok(SetupStep(token)) ==> WaitsFrom(db, db', token, Pending(user, Setup, now + 300, 0), now))
            && (r == Ok(SessionStep(token)) ==> db'.sessions == db.sessions[token := SiteSession(user)] && db'.pending == db.pending)
            && (r.Err? ==> db' == db)
            && db'.mfa == db.mfa && db'.recovery == db.recovery && db'.active == db.active && db'.failures == db.failures
  {
  }

  // --- the account's own settings ---

  /**
   Setup is refused exactly when it is on; a setup of one's own that can be read is
   shown again, and in place of any other comes the secret drawn for it.
   */
  lemma BeginSetupExactly(site: Site, db: Db, user: string, owner: string, drawn: string)
    ensures var (db', r) := BeginSetup(site, db, user, owner, drawn);
            && (r.Err? <==> IsEnabled(db, user))
            && (r.Err? ==> db' == db)
            && (r.Ok? ==> && HasSecret(db', user, SetupBy(owner))
                          && db'.mfa[user].secret == r.value
                          && (r.value, owner) in db'.log.shown
                          && (forall other :: other != owner ==> !HasSecret(db', user, SetupBy(other)))
                          && (if HasSecret(db, user, SetupBy(owner)) && site.opens(db.mfa[user].secret) then
                                r.value == db.mfa[user].secret && db'.mfa == db.mfa
                              else r.value == drawn && db'.mfa == db.mfa[user := Mfa(drawn, false, 0, owner)]))
            && db' == db.(mfa := db'.mfa, log := db'.log)
  {
  }

  /** Why a code did not do: the limit was reached, it could not be checked, or it was wrong. */
  function WhyNot(room: bool, unreadable: bool): string {
    if !room then "Too many wrong codes."
    else if unreadable then "The two-step secret could not be read."
    else "The code is not correct."
  }

  /**
   It is turned on from the account page exactly with a right code of the setup
   the same session began; that session is the only one left.
   */
  lemma ConfirmSetupExactly(site: Site, db: Db, user: string, typed: string, keep: string, codes: set<string>, now: nat)
    ensures var (db', r) := ConfirmSetup(site, db, user, typed, keep, codes, now);
            var code := NormaliseCode(typed);
            && (r.Ok? <==> RightCode(site, db, user, code, SetupBy(keep), false, now))
            && (r.Ok? ==> && !IsEnabled(db, user) && IsEnabled(db', user) && OnlySession(db', user, keep)
                          && Spends(site, db, db', user, code, now)
                          && (forall t <- db'.sessions :: t in db.sessions && db'.sessions[t] == db.sessions[t])
                          && (keep in db.sessions ==> keep in db'.sessions)
                          && db'.mfa - {user} == db.mfa - {user} && OthersAsBefore(db, db', user)
                          && (forall c :: (user, c) in db'.recovery <==> c in codes))
            && (r.Err? ==> db' == db && r.error == WhyNot(true, Unreadable(site, db, user, code, SetupBy(keep))))
  {
    var code := NormaliseCode(typed);
    AcceptsRightCodes(site, db, user, code, SetupBy(keep), false, now);
    if RightCode(site, db, user, code, SetupBy(keep), false, now) {
      RightSetupCode(site, db, user, code, keep, now);
      EnableExactly(AcceptCode(site, db, user, code, SetupBy(keep), false, now).0, user, Some(keep), keep, codes);
    }
  }

  /** No two-step sign-in of the account, nor a recovery code, and everybody else's as they were. */
  ghost predicate TwoStepGone(db: Db, db': Db, user: string) {
    && db'.mfa == db.mfa - {user}
    && forall left: (string, string) :: left in db'.recovery <==> left in db.recovery && left.0 != user
  }

  /** What the account page answers to a code it checks under the limit. */
  lemma AnsweredWith(site: Site, db: Db, user: string, typed: string, allowRecovery: bool, now: nat)
    ensures var (db', used) := AcceptCounted(site, db, user, typed, Enabled, allowRecovery, now);
            && (Good(used) <==> Answer(used).Ok?)
            && (!Good(used) ==>
                  Answer(used).error == WhyNot(HasRoomNow(db, user, now), Unreadable(site, db, user, NormaliseCode(typed), Enabled)))
  {
    CountedExactly(site, db, user, typed, Enabled, allowRecovery, now);
    AcceptsRightCodes(site, TriedAttempt(db, user, now).0, user, NormaliseCode(typed), Enabled, allowRecovery, now);
  }

  /** Taking it all away leaves everybody else's as it was, whatever code was spent for that. */
  lemma RemovingKeepsOthers(db: Db, checked: Db, user: string)
    requires OnlySpends(db.(failures := checked.failures), checked, user)
    ensures TwoStepGone(db, RemovedMfa(checked, user), user)
    ensures OthersAsBefore(db.(failures := checked.failures), RemovedMfa(checked, user), user)
    ensures RemovedMfa(checked, user).sessions == db.sessions
  {
    assert checked.mfa - {user} == db.mfa - {user};
  }

  /** It is turned off exactly when it may be, is on, and the code is right under the limit; then nothing of it is left. */
  lemma TurnOffExactly(site: Site, db: Db, user: string, isAdmin: bool, typed: string, now: nat)
    ensures var (db', r) := TurnOff(site, db, user, isAdmin, typed, now);
            && (r.Ok? <==> && !MustHave(site, isAdmin) && IsEnabled(db, user) && HasRoomNow(db, user, now)
                           && RightCode(site, db, user, NormaliseCode(typed), Enabled, true, now))
            && (r.Ok? ==> TwoStepGone(db, db', user) && OthersAsBefore(db.(failures := db'.failures), db', user))
            && (r.Err? ==> db' == db.(failures := db'.failures))
            && (r.Err? ==> r.error == if MustHave(site, isAdmin) then "This site requires two-step sign-in."
                                      else if !IsEnabled(db, user) then "Two-step sign-in is off."
                                      else WhyNot(HasRoomNow(db, user, now), Unreadable(site, db, user, NormaliseCode(typed), Enabled)))
            && db'.sessions == db.sessions
  {
    if !MustHave(site, isAdmin) && IsEnabled(db, user) {
      var (checked, used) := AcceptCounted(site, db, user, typed, Enabled, true, now);
      CountedExactly(site, db, user, typed, Enabled, true, now);
      AnsweredWith(site, db, user, typed, true, now);
      if Good(used) {
        RemovingKeepsOthers(db, checked, user);
      }
    }
  }

  /** New recovery codes come exactly with a right code of the app, never with a recovery code. */
  lemma RegenerateExactly(site: Site, db: Db, user: string, typed: string, codes: set<string>, now: nat)
    ensures var (db', r) := RegenerateCodes(site, db, user, typed, codes, now);
            var code := NormaliseCode(typed);
            && (r.Ok? <==> IsEnabled(db, user) && HasRoomNow(db, user, now) && SixDigits(code) && AppCode(site, db, user, code, Enabled, now))
            && (r.Ok? ==> (forall left: (string, string) ::
                             left in db'.recovery <==> if left.0 == user then left.1 in codes else left in db.recovery)
                          && SpendsStep(site, db, db', user, code, now) && db'.mfa - {user} == db.mfa - {user})
            && (r.Err? ==> db' == db.(failures := db'.failures))
            && (r.Err? ==> r.error == if !IsEnabled(db, user) then "Two-step sign-in is off."
                                      else if |code| != 6 then "Enter the 6-digit code."
                                      else WhyNot(HasRoomNow(db, user, now), Unreadable(site, db, user, code, Enabled)))
            && db'.sessions == db.sessions && db'.pending == db.pending && db'.active == db.active
  {
    if IsEnabled(db, user) && |NormaliseCode(typed)| == 6 {
      CountedExactly(site, db, user, typed, Enabled, false, now);
      AnsweredWith(site, db, user, typed, false, now);
      RightCodeOfApp(site, db, user, typed, now);
    } else {
      assert !SixDigits(NormaliseCode(typed)) || !IsEnabled(db, user);
    }
  }

  lemma RightCodeOfApp(site: Site, db: Db, user: string, typed: string, now: nat)
    ensures RightCode(site, db, user, NormaliseCode(typed), Enabled, false, now)
            <==> SixDigits(NormaliseCode(typed)) && AppCode(site, db, user, NormaliseCode(typed), Enabled, now)
  {
  }

  // --- how a code is typed ---

  predicate Plain(c: char) {
    'a' <= c <= 'z' || '0' <= c <= '9'
  }

  predicate Capital(c: char) {
    'A' <= c <= 'Z'
  }

  lemma {:induction false} AlphanumericsOfBoth(a: string, b: string)
    ensures Alphanumerics(a + b) == Alphanumerics(a) + Alphanumerics(b)
  {
    if a == "" {
      assert a + b == b;
    } else {
      assert (a + b)[1..] == a[1..] + b;
      AlphanumericsOfBoth(a[1..], b);
    }
  }

  lemma LowerOfBoth(a: string, b: string)
    ensures Lower(a + b) == Lower(a) + Lower(b)
  {
  }

  lemma NormalOfBoth(a: string, b: string)
    ensures NormaliseCode(a + b) == NormaliseCode(a) + NormaliseCode(b)
  {
    AlphanumericsOfBoth(a, b);
    LowerOfBoth(Alphanumerics(a), Alphanumerics(b));
  }

  lemma NormalOfOne(c: char)
    ensures NormaliseCode([c]) == if Capital(c) then [(c as int + 32) as char] else if Plain(c) then [c] else ""
  {
    assert [c][1..] == "" && Alphanumerics("") == "";
    assert Alphanumerics([c]) == if IsAlphanumeric(c) then [c] + "" else "";
    assert Capital(c) ==> LowerChar(c) == (c as int + 32) as char;
  }

  /** Case, spaces, dashes and whatever else is in between do not matter; small letters and digits do, in their order. */
  lemma CodesAreReadLoosely(a: string, c: char, b: string)
    ensures NormaliseCode(a + [c] + b) ==
            NormaliseCode(a) + (if Capital(c) then [(c as int + 32) as char] else if Plain(c) then [c] else "") + NormaliseCode(b)
    ensures NormaliseCode("") == ""
  {
    NormalOfBoth(a + [c], b);
    NormalOfBoth(a, [c]);
    NormalOfOne(c);
  }

  // --- what ends sessions and sign-ins ---

  /** Of one account, all sessions but perhaps one and all pending sign-ins gone; everybody else's as they were. */
  ghost predicate SignedOut(db: Db, db': Db, user: string, keep: Option<string>) {
    && (forall t :: t in db'.sessions <==> t in db.sessions && (db.sessions[t].user == user ==> Some(t) == keep))
    && (forall t <- db'.sessions :: db'.sessions[t] == db.sessions[t])
    && (forall t :: t in db'.pending <==> t in db.pending && db.pending[t].user != user)
    && (forall t <- db'.pending :: db'.pending[t] == db.pending[t])
  }

  ghost predicate TwoStepSame(db: Db, db': Db) {
    db'.mfa == db.mfa && db'.recovery == db.recovery
  }

  /** A reset, a new password and an accepted invite: who is signed out, and whether two-step sign-in stays. */
  lemma WhoIsSignedOut(site: Site, db: Db, op: Op)
    ensures var db' := Perform(site, db, op);
            match op
            case OpReset(user) => SignedOut(db, db', user, None) && TwoStepGone(db, db', user)
            case OpAcceptInvite(user) => SignedOut(db, db', user, None) && TwoStepSame(db, db')
            case OpChangePassword(token) =>
              var who := SiteUser(db, token);
              if who.Some? then SignedOut(db, db', who.value, Some(token)) && TwoStepSame(db, db') else db' == db
            case _ => true
  {
  }

  /** Disabling an account ends its sessions, enabling it none; and a session is live only while its account is not disabled. */
  lemma DisabledAreSignedOut(site: Site, db: Db, user: string, active: bool, token: string)
    ensures var db' := Perform(site, db, OpSetActive(user, active));
            && (user in db'.active <==> active) && db'.active - {user} == db.active - {user}
            && (forall t :: t in db'.sessions <==> t in db.sessions && (active || db.sessions[t].user != user))
            && (forall t <- db'.sessions :: db'.sessions[t] == db.sessions[t])
            && TwoStepSame(db, db') && db'.pending == db.pending
    ensures SiteUser(db, token) == Some(user) <==>
            token in db.sessions && db.sessions[token] == SiteSession(user) && user in db.active
  {
  }

  /** Signing out ends that session, and the account's sessions with apps; an app's session descends from the one it is drawn from. */
  lemma LogOutAndApps(site: Site, db: Db, token: string, app: string, drawn: string)
    ensures var db' := Perform(site, db, OpLogOut(token));
            && (forall t :: t in db'.sessions <==>
                  t in db.sessions && t != token
                  && !(token in db.sessions && db.sessions[t].AppSession? && db.sessions[t].user == db.sessions[token].user))
            && (forall t <- db'.sessions :: db'.sessions[t] == db.sessions[t])
            && TwoStepSame(db, db') && db'.pending == db.pending
    ensures var who := SiteUser(db, token);
            Perform(site, db, OpAppSession(token, app, drawn)).sessions ==
            if who.Some? then db.sessions[drawn := AppSession(who.value, app, token)] else db.sessions
  {
  }

  /** Cancelling takes a setup that is under way, and never what is on. */
  lemma CancelTakesOnlySetups(site: Site, db: Db, token: string)
    ensures var (db', who) := (Perform(site, db, OpCancelSetup(token)), SiteUser(db, token));
            && db' == db.(mfa := db'.mfa)
            && db'.mfa == if who.Some? && who.value in db.mfa && !db.mfa[who.value].enabled then db.mfa - {who.value} else db.mfa
  {
  }

  /** The setup page shows the setup of a sign-in that waits for it, the account page that of the session's own account. */
  lemma SetupsAreShownTo(site: Site, db: Db, token: string, drawn: string, now: nat)
    ensures Perform(site, db, OpShowPendingSetup(token, drawn, now)) ==
            if Waits(db, token, Setup, now) then BeginSetup(site, db, db.pending[token].user, token, drawn).0 else db
    ensures var who := SiteUser(db, token);
            Perform(site, db, OpBeginSetup(token, drawn)) ==
            if who.Some? then BeginSetup(site, db, who.value, token, drawn).0 else db
  {
  }
}
