/**
 The sign-in operations as the source runs them: one store call after another,
 each changing rows of the account tables in place (src/accounts/mfa.rs,
 src/accounts/store/sqlite.rs). Recovery codes are rows that are marked used,
 replaced one by one; `View` is what `SignIn` makes of the tables.
 */
module Accounts {
  import opened Wrappers
  import opened Text
  import opened Attempts
  import opened SignIn
  import opened Codes
  import Totp

  /** A row of `recovery_codes`; an account has no code twice. */
  datatype CodeRow = CodeRow(user: string, code: string, used: bool)

  ghost function Left(rows: seq<CodeRow>): set<(string, string)> {
    set row <- rows | !row.used :: (row.user, row.code)
  }

  ghost predicate Keyed(rows: seq<CodeRow>) {
    forall i, j | 0 <= i < j < |rows| :: (rows[i].user, rows[i].code) != (rows[j].user, rows[j].code)
  }

  /** Marking the row of a code takes it from those left, and no other. */
  lemma MarkedUsed(rows: seq<CodeRow>, i: nat)
    requires Keyed(rows) && i < |rows| && !rows[i].used
    ensures var marked := rows[i := rows[i].(used := true)];
            Keyed(marked) && Left(marked) == Left(rows) - {(rows[i].user, rows[i].code)}
  {
    var marked := rows[i := rows[i].(used := true)];
    forall left ensures left in Left(marked) <==> left in Left(rows) && left != (rows[i].user, rows[i].code) {
      if left in Left(rows) && left != (rows[i].user, rows[i].code) {
        var j :| 0 <= j < |rows| && !rows[j].used && left == (rows[j].user, rows[j].code);
        assert marked[j] == rows[j];
      }
      if left in Left(marked) {
        var j :| 0 <= j < |marked| && !marked[j].used && left == (marked[j].user, marked[j].code);
        assert j != i && marked[j] == rows[j];
      }
    }
  }

  function OfOthers(rows: seq<CodeRow>, user: string): (kept: seq<CodeRow>)
    ensures forall row :: row in kept <==> row in rows && row.user != user
  {
    if rows == [] then [] else (if rows[0].user != user then [rows[0]] else []) + OfOthers(rows[1..], user)
  }

  lemma {:induction false} OthersKeyed(rows: seq<CodeRow>, user: string)
    requires Keyed(rows)
    ensures Keyed(OfOthers(rows, user))
    ensures Left(OfOthers(rows, user)) == CodesOfOthers(Left(rows), user)
  {
    if rows != [] {
      assert Keyed(rows[1..]);
      OthersKeyed(rows[1..], user);
      forall row <- OfOthers(rows[1..], user) ensures (row.user, row.code) != (rows[0].user, rows[0].code) {
        var j :| 0 <= j < |rows[1..]| && rows[1..][j] == row;
        assert rows[j + 1] == row;
      }
      assert rows == [rows[0]] + rows[1..];
    }
  }

  /** Inserting one more code of an account that does not have it. */
  lemma Inserted(rows: seq<CodeRow>, user: string, code: string)
    requires Keyed(rows) && forall row <- rows :: (row.user, row.code) != (user, code)
    ensures Keyed(rows + [CodeRow(user, code, false)])
    ensures Left(rows + [CodeRow(user, code, false)]) == Left(rows) + {(user, code)}
  {
  }

  function Elements(hashes: seq<string>): set<string> {
    set code <- hashes
  }

  predicate Different(hashes: seq<string>) {
    forall i, j | 0 <= i < j < |hashes| :: hashes[i] != hashes[j]
  }

  class Store {
    var active: set<string>
    var mfa: map<string, Mfa>
    var codes: seq<CodeRow>
    var sessions: map<string, Session>
    var pending: map<string, Pending>
    var failures: seq<Count>
    ghost var log: Log

    ghost predicate Valid()
      reads this
    {
      Keyed(codes)
    }

    ghost function View(): Db
      reads this
    {
      Db(active, mfa, Left(codes), sessions, pending, failures, log)
    }

    constructor ()
      ensures Valid() && View() == Empty
    {
      active, mfa, codes, sessions, pending, failures := {}, map[], [], map[], map[], [];
      log := Log(map[], {}, {});
    }

    // --- store calls ---

    method AdvanceStep(user: string, step: nat) returns (moved: bool)
      requires Valid()
      modifies this`mfa
      ensures (View(), moved) == AdvancedStep(old(View()), user, step)
    {
      if user in mfa && mfa[user].lastStep < step {
        mfa := mfa[user := mfa[user].(lastStep := step)];
        return true;
      }
      return false;
    }

    /** `update recovery_codes set used_at = .. where .. used_at is null`. */
    method SpendRecoveryCode(user: string, code: string) returns (spent: bool)
      requires Valid()
      modifies this`codes
      ensures Valid()
      ensures (View(), spent) == SpentRecoveryCode(old(View()), user, code)
    {
      for i := 0 to |codes|
        invariant codes == old(codes)
        invariant forall j | 0 <= j < i :: codes[j].used || (codes[j].user, codes[j].code) != (user, code)
      {
        if codes[i].user == user && codes[i].code == code && !codes[i].used {
          MarkedUsed(codes, i);
          assert (user, code) in Left(codes);
          codes := codes[i := codes[i].(used := true)];
          return true;
        }
      }
      return false;
    }

    /** The account's rows go, and each new code is inserted. */
    method ReplaceRecoveryCodes(user: string, hashes: seq<string>)
      requires Valid() && Different(hashes)
      modifies this`codes
      ensures Valid()
      ensures View() == old(View()).(recovery := ReplacedCodes(old(View()).recovery, user, Elements(hashes)))
    {
      OthersKeyed(codes, user);
      codes := OfOthers(codes, user);
      for i := 0 to |hashes|
        invariant Keyed(codes)
        invariant Left(codes) == CodesOfOthers(old(Left(codes)), user) + set code <- hashes[..i] :: (user, code)
        invariant forall row <- codes :: row.user != user || row.code in hashes[..i]
      {
        Inserted(codes, user, hashes[i]);
        assert hashes[..i + 1] == hashes[..i] + [hashes[i]];
        codes := codes + [CodeRow(user, hashes[i], false)];
      }
      assert hashes[..|hashes|] == hashes;
    }

    /** The secret, the recovery codes and the pending sign-ins of an account, each its own statement. */
    method RemoveMfa(user: string)
      requires Valid()
      modifies this`mfa, this`codes, this`pending
      ensures Valid() && View() == RemovedMfa(old(View()), user)
    {
      OthersKeyed(codes, user);
      mfa := mfa - {user};
      codes := OfOthers(codes, user);
      pending := map t <- pending | pending[t].user != user :: pending[t];
    }

    method TryPending(token: string) returns (tries: Option<nat>)
      modifies this`pending
      ensures (View(), tries) == TriedPending(old(View()), token)
    {
      if token in pending && pending[token].failures < MAX_FAILURES_PER_PENDING {
        pending := pending[token := pending[token].(failures := pending[token].failures + 1)];
        return Some(pending[token].failures);
      }
      return None;
    }

    method TryAttempt(user: string, at: nat, since: nat, limit: nat) returns (ok: bool)
      modifies this`failures
      ensures ok <==> HasRoom(old(failures), Count(user, at), since, limit)
      ensures failures == if ok then Pruned(old(failures), since) + [Count(user, at)] else old(failures)
    {
      var kept := Pruned(failures, since);
      if Counted(kept, user, since) >= limit {
        return false;
      }
      failures := kept + [Count(user, at)];
      return true;
    }

    method ReleaseAttempt(user: string, at: nat)
      modifies this`failures
      ensures View() == ReleasedAttempt(old(View()), user, at)
    {
      failures := Released(failures, Count(user, at));
    }

    // --- mfa.rs ---

    method TakeAttempt(user: string, now: nat) returns (at: Option<nat>)
      modifies this`failures
      ensures (View(), at.Some?) == TriedAttempt(old(View()), user, now)
      ensures at == if HasRoomNow(old(View()), user, now) then Some(now) else None
    {
      RoomIs(View(), user, now);
      var since := Since(now, ACCOUNT_WINDOW);
      var ok := TryAttempt(user, now, since, MAX_FAILURES_PER_ACCOUNT);
      return if ok then Some(now) else None;
    }

    /** Accepted exactly when the code is right for the tables as they were, and then spent in them. */
    method AcceptCode(site: Site, user: string, typed: string, which: Secret, allowRecovery: bool, now: nat)
      returns (r: Result<Option<Used>, string>)
      requires Valid()
      modifies this`mfa, this`codes
      ensures Valid() && (View(), r) == Accept(site, old(View()), user, typed, which, allowRecovery, now)
      ensures r.Ok? && r.value.Some? <==> RightCode(site, old(View()), user, NormaliseCode(typed), which, allowRecovery, now)
      ensures r.Ok? && r.value.Some? ==> Spends(site, old(View()), View(), user, NormaliseCode(typed), now)
    {
      var code := NormaliseCode(typed);
      AcceptsRightCodes(site, View(), user, code, which, allowRecovery, now);
      if SixDigits(code) {
        var row := Secret(user, which);
        if row.None? {
          return Ok(None);
        }
        if !site.opens(row.value.secret) {
          return Err("The two-step secret could not be read.");
        }
        var step := Totp.MatchingStep(site.hotp, row.value.secret, code, now, row.value.lastStep);
        if step.None? {
          return Ok(None);
        }
        var moved := AdvanceStep(user, step.value);
        return Ok(if moved then Some(App) else None);
      }
      if allowRecovery && |code| == 8 {
        var spent := SpendRecoveryCode(user, code);
        return Ok(if spent then Some(Recovery) else None);
      }
      return Ok(None);
    }

    function Secret(user: string, which: Secret): (row: Option<Mfa>)
      reads this
      ensures row == MfaSecret(View(), user, which)
    {
      if user !in mfa then None else
      match which
      case Enabled => if mfa[user].enabled then Some(mfa[user]) else None
      case SetupBy(token) => if !mfa[user].enabled && mfa[user].begunBy == token then Some(mfa[user]) else None
    }

    /** No answer at the limit; else the check is counted ahead, and only a wrong code stays counted. */
    method AcceptFromAccount(site: Site, user: string, typed: string, allowRecovery: bool, now: nat)
      returns (r: Option<Result<Option<Used>, string>>)
      requires Valid()
      modifies this`mfa, this`codes, this`failures
      ensures Valid() && (View(), r) == AcceptCounted(site, old(View()), user, typed, Enabled, allowRecovery, now)
      ensures Good(r) <==> HasRoomNow(old(View()), user, now)
                           && RightCode(site, old(View()), user, NormaliseCode(typed), Enabled, allowRecovery, now)
      ensures Good(r) ==> Spends(site, old(View()), View(), user, NormaliseCode(typed), now)
    {
      CountedExactly(site, View(), user, typed, Enabled, allowRecovery, now);
      var at := TakeAttempt(user, now);
      if at.None? {
        return None;
      }
      var used := AcceptCode(site, user, typed, Enabled, allowRecovery, now);
      if used != Ok(None) {
        ReleaseAttempt(user, at.value);
      }
      return Some(used);
    }

    /** The one setting it up sees its own secret again; anyone else a new one. */
    method Begin(site: Site, user: string, owner: string, drawn: string) returns (r: Result<string, string>)
      requires Valid()
      modifies this`mfa, this`log
      ensures Valid() && (View(), r) == BeginSetup(site, old(View()), user, owner, drawn)
      ensures r.Err? <==> IsEnabled(old(View()), user)
      ensures r.Ok? ==> HasSecret(View(), user, SetupBy(owner))
                        && View().mfa[user].secret == r.value
                        && forall other :: other != owner ==> !HasSecret(View(), user, SetupBy(other))
    {
      BeginSetupExactly(site, View(), user, owner, drawn);
      if user in mfa && mfa[user].enabled {
        return Err("Two-step sign-in is already on.");
      }
      var mine := Secret(user, SetupBy(owner));
      if mine.Some? && site.opens(mine.value.secret) {
        log := log.(shown := log.shown + {(mine.value.secret, owner)}, used := log.used + {mine.value.secret});
        return Ok(mine.value.secret);
      }
      mfa := mfa[user := Mfa(drawn, false, 0, owner)];
      log := log.(shown := log.shown + {(drawn, owner)}, used := log.used + {drawn});
      return Ok(drawn);
    }

    /** The secret on, new recovery codes, every session but `keep` and every pending sign-in gone. */
    method TurnOn(user: string, keep: Option<string>, owner: string, hashes: seq<string>) returns (r: Result<(), string>)
      requires Valid() && Different(hashes)
      modifies this`mfa, this`codes, this`sessions, this`pending, this`log
      ensures Valid() && (View(), r) == Enable(old(View()), user, keep, owner, Elements(hashes))
      ensures r.Ok? ==> && (forall t :: t in sessions <==> t in old(sessions) && (old(sessions)[t].user == user ==> Some(t) == keep))
                        && forall t <- pending :: pending[t].user != user
    {
      if user !in mfa || mfa[user].enabled {
        return Err("Start setup again.");
      }
      mfa := mfa[user := mfa[user].(enabled := true, begunBy := "")];
      log := log.(confirmed := log.confirmed[user := owner]);
      ReplaceRecoveryCodes(user, hashes);
      sessions := map t <- sessions | sessions[t].user != user || Some(t) == keep :: sessions[t];
      pending := map t <- pending | pending[t].user != user :: pending[t];
      return Ok(());
    }

    method Confirm(site: Site, user: string, typed: string, keep: string, hashes: seq<string>, now: nat)
      returns (r: Result<(), string>)
      requires Valid() && Different(hashes)
      modifies this`mfa, this`codes, this`sessions, this`pending, this`log
      ensures Valid() && (View(), r) == ConfirmSetup(site, old(View()), user, typed, keep, Elements(hashes), now)
      ensures r.Ok? <==> RightCode(site, old(View()), user, NormaliseCode(typed), SetupBy(keep), false, now)
      ensures r.Ok? ==> IsEnabled(View(), user) && OnlySession(View(), user, keep)
                        && Spends(site, old(View()), View(), user, NormaliseCode(typed), now)
    {
      ConfirmSetupExactly(site, View(), user, typed, keep, Elements(hashes), now);
      var used := AcceptCode(site, user, typed, SetupBy(keep), false, now);
      match used {
        case Err(why) => return Err(why);
        case Ok(None) => return Err("The code is not correct.");
        case Ok(Some(_)) =>
          r := TurnOn(user, Some(keep), keep, hashes);
      }
    }

    method Start(user: string, token: string) returns (r: Result<string, string>)
      modifies this`sessions, this`log
      ensures (View(), r) == StartSession(old(View()), user, token)
    {
      if user !in active {
        return Err("This account is disabled.");
      }
      sessions := sessions[token := SiteSession(user)];
      log := log.(used := log.used + {token});
      return Ok(token);
    }

    /** Stores a pending sign-in, sweeping the expired ones. */
    method InsertPending(token: string, p: Pending, now: nat)
      modifies this`pending, this`log
      ensures View() == InsertedPending(old(View()), token, p, now)
    {
      pending := (map t <- pending | pending[t].expiresAt >= now :: pending[t])[token := p];
      log := log.(used := log.used + {token});
    }

    /** No session while a code is owed: only a sign-in that waits for it, all its tries left. */
    method SignInAfterPrimary(site: Site, user: string, isAdmin: bool, primary: Primary, token: string, now: nat)
      returns (r: Result<Step, string>)
      modifies this`sessions, this`pending, this`log
      ensures (View(), r) == AfterPrimary(site, old(View()), user, isAdmin, primary, token, now)
      ensures Applies(site, primary) && IsEnabled(old(View()), user) ==>
                r == Ok(CodeStep(token)) && sessions == old(sessions) && HasTries(View(), token)
      ensures r == Ok(SessionStep(token)) <==>
                user in active && !(Applies(site, primary) && (IsEnabled(old(View()), user) || site.policy.Requires(isAdmin)))
    {
      AfterPrimaryExactly(site, View(), user, isAdmin, primary, token, now);
      var applies := primary == Password || site.forProviders;
      if applies && user in mfa && mfa[user].enabled {
        InsertPending(token, Pending(user, Code, now + PENDING_LIFETIME, 0), now);
        return Ok(CodeStep(token));
      }
      if applies && site.policy.Requires(isAdmin) {
        InsertPending(token, Pending(user, Setup, now + PENDING_LIFETIME, 0), now);
        return Ok(SetupStep(token));
      }
      var started := Start(user, token);
      return match started case Ok(t) => Ok(SessionStep(t)) case Err(why) => Err(why);
    }

    /** At most the fifth; with none left the sign-in goes. */
    method TakeOneTry(token: string) returns (r: Result<nat, Refusal>)
      modifies this`pending
      ensures (View(), r) == TakeTry(old(View()), token)
      ensures r.Ok? <==> HasTries(old(View()), token)
      ensures r.Ok? ==> 1 <= r.value <= MAX_FAILURES_PER_PENDING && pending[token].failures == r.value
      ensures r.Err? ==> token !in pending
    {
      var tries := TryPending(token);
      if tries.Some? {
        return Ok(tries.value);
      }
      pending := pending - {token};
      return Err(Ended);
    }

    method RefuseWrong(token: string, tries: nat) returns (refusal: Refusal)
      modifies this`pending
      ensures (View(), refusal) == SignIn.Wronged(old(View()), token, tries)
    {
      if tries >= MAX_FAILURES_PER_PENDING {
        pending := pending - {token};
        return Ended;
      }
      return WrongCode(MAX_FAILURES_PER_PENDING - tries);
    }

    method FinishSignIn(token: string, user: string, session: string) returns (r: Result<string, Refusal>)
      modifies this`sessions, this`pending, this`log
      ensures (View(), r) == Finish(old(View()), token, user, session)
    {
      pending := pending - {token};
      var started := Start(user, session);
      return match started case Ok(t) => Ok(t) case Err(why) => Err(Failed(why));
    }

    function Waiting(token: string, now: nat): (p: Option<Pending>)
      reads this
      ensures p == LoadPending(View(), token, now)
    {
      if token in pending && pending[token].expiresAt >= now && pending[token].user in active then Some(pending[token]) else None
    }

    /** A session only for a right code, under both limits, which is then spent. */
    method SubmitCode(site: Site, token: string, typed: string, session: string, now: nat) returns (r: Result<string, Refusal>)
      requires Valid()
      modifies this
      ensures Valid() && (View(), r) == FinishWithCode(site, old(View()), token, typed, session, now)
      ensures r.Ok? <==> CodeEnters(site, old(View()), token, typed, now)
      ensures r.Ok? ==> EnteredWith(site, old(View()), View(), token, old(pending)[token].user, NormaliseCode(typed), session, now)
      ensures r.Err? ==> sessions == old(sessions)
    {
      FinishWithCodeExactly(site, View(), token, typed, session, now);
      var p := Waiting(token, now);
      if p.None? || p.value.stage != Code {
        return Err(Expired);
      }
      var tries := TakeOneTry(token);
      if tries.Err? {
        return Err(tries.error);
      }
      var at := TakeAttempt(p.value.user, now);
      if at.None? {
        return Err(Locked);
      }
      var used := AcceptCode(site, p.value.user, typed, Enabled, true, now);
      match used {
        case Ok(Some(_)) =>
          ReleaseAttempt(p.value.user, at.value);
          r := FinishSignIn(token, p.value.user, session);
        case Ok(None) =>
          var refusal := RefuseWrong(token, tries.value);
          r := Err(refusal);
        case Err(why) =>
          ReleaseAttempt(p.value.user, at.value);
          r := Err(Failed(why));
      }
    }

    /** On, and a session, only for a right code of the setup this sign-in began itself. */
    method SubmitSetupCode(site: Site, token: string, typed: string, session: string, hashes: seq<string>, now: nat)
      returns (r: Result<string, Refusal>)
      requires Valid() && Different(hashes)
      modifies this
      ensures Valid() && (View(), r) == FinishSetup(site, old(View()), token, typed, session, Elements(hashes), now)
      ensures r.Ok? <==> SetupEnters(site, old(View()), token, typed, now)
      ensures r.Ok? ==> TurnedOnWith(site, old(View()), View(), old(pending)[token].user, NormaliseCode(typed), session, now)
      ensures r.Err? ==> sessions == old(sessions) && mfa == old(mfa)
    {
      FinishSetupExactly(site, View(), token, typed, session, Elements(hashes), now);
      r := CheckSetupCode(site, token, typed, session, hashes, now);
    }

    method CheckSetupCode(site: Site, token: string, typed: string, session: string, hashes: seq<string>, now: nat)
      returns (r: Result<string, Refusal>)
      requires Valid() && Different(hashes)
      modifies this
      ensures Valid() && (View(), r) == FinishSetup(site, old(View()), token, typed, session, Elements(hashes), now)
    {
      var p := Waiting(token, now);
      if p.None? || p.value.stage != Setup {
        return Err(Expired);
      }
      if Secret(p.value.user, SetupBy(token)).None? {
        pending := pending - {token};
        return Err(Expired);
      }
      var tries := TakeOneTry(token);
      if tries.Err? {
        return Err(tries.error);
      }
      var used := AcceptCode(site, p.value.user, typed, SetupBy(token), false, now);
      match used {
        case Err(why) => return Err(Failed(why));
        case Ok(None) =>
          var refusal := RefuseWrong(token, tries.value);
          r := Err(refusal);
        case Ok(Some(_)) =>
          var on := TurnOn(p.value.user, None, token, hashes);
          match on {
            case Err(why) => return Err(Failed(why));
            case Ok(_) => r := FinishSignIn(token, p.value.user, session);
          }
      }
    }
  }
}
