/**
 Two-step sign-in, one whole operation at a time (src/accounts/mfa.rs,
 src/accounts/users.rs): what the account tables hold, what each operation
 makes of them, and what every run of operations keeps.

 A token stands for its digest, which is taken to be unique; a fresh token,
 secret or set of recovery codes arrives as an argument never used before.
 */
module SignIn {
  import opened Wrappers
  import opened Text
  import opened Attempts
  import Totp

  const PENDING_LIFETIME: nat := 5 * 60
  const MAX_FAILURES_PER_PENDING: nat := 5

  /** Who must have two-step sign-in. */
  datatype Policy = Off | Admins | Everyone {
    predicate Requires(isAdmin: bool) {
      match this
      case Off => false
      case Admins => isAdmin
      case Everyone => true
    }
  }

  /** The settings, what a phone shows, and which sealed secrets the site can still open. */
  datatype Site = Site(policy: Policy, forProviders: bool, hotp: Totp.Hotp, opens: string -> bool)

  datatype Primary = Password | Provider

  datatype Mfa = Mfa(secret: string, enabled: bool, lastStep: nat, begunBy: string)

  /** A site session, or one app's, which descends from the site session `parent`. */
  datatype Session = SiteSession(user: string) | AppSession(user: string, app: string, parent: string)

  datatype Stage = Code | Setup

  datatype Pending = Pending(user: string, stage: Stage, expiresAt: nat, failures: nat)

  /** What happened, kept for the properties; no operation reads it. */
  datatype Log = Log(
    confirmed: map<string, string>, // by account: the sign-in that turned it on
    shown: set<(string, string)>,   // a secret, and a sign-in it was shown to
    used: set<string>               // every token and secret ever drawn
  )

  datatype Db = Db(
    active: set<string>,
    mfa: map<string, Mfa>,
    recovery: set<(string, string)>, // an account and a code of its, not yet used
    sessions: map<string, Session>,
    pending: map<string, Pending>,
    failures: seq<Count>,
    log: Log
  )

  const Empty := Db({}, map[], {}, map[], map[], [], Log(map[], {}, {}))

  // --- one store call ---

  predicate IsEnabled(db: Db, user: string) {
    user in db.mfa && db.mfa[user].enabled
  }

  datatype Secret = Enabled | SetupBy(token: string)

  function MfaSecret(db: Db, user: string, which: Secret): Option<Mfa> {
    if user !in db.mfa then None else
    var m := db.mfa[user];
    match which
    case Enabled => if m.enabled then Some(m) else None
    case SetupBy(token) => if !m.enabled && m.begunBy == token then Some(m) else None
  }

  /** Never touches an enabled secret. */
  function BegunMfa(db: Db, user: string, secret: string, owner: string): Db {
    if IsEnabled(db, user) then db else db.(mfa := db.mfa[user := Mfa(secret, false, 0, owner)])
  }

  function CancelledSetup(db: Db, user: string): Db {
    if IsEnabled(db, user) then db else db.(mfa := db.mfa - {user})
  }

  function AdvancedStep(db: Db, user: string, step: nat): (Db, bool) {
    if user in db.mfa && db.mfa[user].lastStep < step then
      (db.(mfa := db.mfa[user := db.mfa[user].(lastStep := step)]), true)
    else (db, false)
  }

  function SpentRecoveryCode(db: Db, user: string, code: string): (Db, bool) {
    if (user, code) in db.recovery then (db.(recovery := db.recovery - {(user, code)}), true) else (db, false)
  }

  function CodesOfOthers(recovery: set<(string, string)>, user: string): set<(string, string)> {
    set left <- recovery | left.0 != user
  }

  function ReplacedCodes(recovery: set<(string, string)>, user: string, codes: set<string>): set<(string, string)> {
    CodesOfOthers(recovery, user) + set code <- codes :: (user, code)
  }

  function RemovedMfa(db: Db, user: string): Db {
    DeletedPendingFor(db.(mfa := db.mfa - {user}, recovery := CodesOfOthers(db.recovery, user)), user)
  }

  /** Every session of the account goes, but the one `except` names. */
  function DeletedSessionsFor(db: Db, user: string, except: Option<string>): Db {
    db.(sessions := map t <- db.sessions | db.sessions[t].user != user || Some(t) == except :: db.sessions[t])
  }

  function DeletedPendingFor(db: Db, user: string): Db {
    db.(pending := map t <- db.pending | db.pending[t].user != user :: db.pending[t])
  }

  function DeletedPending(db: Db, token: string): Db {
    db.(pending := db.pending - {token})
  }

  /** Stores a pending sign-in, sweeping the expired ones. */
  function InsertedPending(db: Db, token: string, p: Pending, now: nat): Db {
    db.(pending := (map t <- db.pending | db.pending[t].expiresAt >= now :: db.pending[t])[token := p],
        log := db.log.(used := db.log.used + {token}))
  }

  function LoadPending(db: Db, token: string, now: nat): Option<Pending> {
    if token in db.pending && db.pending[token].expiresAt >= now && db.pending[token].user in db.active
    then Some(db.pending[token]) else None
  }

  /** One more try of a pending sign-in, if it has any left: which try it is. */
  function TriedPending(db: Db, token: string): (r: (Db, Option<nat>)) {
    if token in db.pending && db.pending[token].failures < MAX_FAILURES_PER_PENDING then
      var p := db.pending[token].(failures := db.pending[token].failures + 1);
      (db.(pending := db.pending[token := p]), Some(p.failures))
    else (db, None)
  }

  function TriedAttempt(db: Db, user: string, now: nat): (Db, bool) {
    var c, since := Count(user, now), Since(now, ACCOUNT_WINDOW);
    if HasRoom(db.failures, c, since, MAX_FAILURES_PER_ACCOUNT) then
      (db.(failures := Pruned(db.failures, since) + [c]), true)
    else (db, false)
  }

  function ReleasedAttempt(db: Db, user: string, at: nat): Db {
    db.(failures := Released(db.failures, Count(user, at)))
  }

  // --- a code ---

  datatype Used = App | Recovery

  function NormaliseCode(code: string): string {
    Lower(Alphanumerics(code))
  }

  function Alphanumerics(s: string): string {
    if s == "" then ""
    else if IsAlphanumeric(s[0]) then [s[0]] + Alphanumerics(s[1..])
    else Alphanumerics(s[1..])
  }

  predicate SixDigits(code: string) {
    |code| == 6 && forall c <- code :: IsDigit(c)
  }

  /** A right code is spent in the check; what was used is the answer, or none. */
  function Accept(site: Site, db: Db, user: string, typed: string, which: Secret, allowRecovery: bool, now: nat)
    : (Db, Result<Option<Used>, string>)
  {
    AcceptCode(site, db, user, NormaliseCode(typed), which, allowRecovery, now)
  }

  function AcceptCode(site: Site, db: Db, user: string, code: string, which: Secret, allowRecovery: bool, now: nat)
    : (Db, Result<Option<Used>, string>)
  {
    if SixDigits(code) then
      var row := MfaSecret(db, user, which);
      if row.None? then (db, Ok(None))
      else if !site.opens(row.value.secret) then (db, Err("The two-step secret could not be read."))
      else
        var step := Totp.MatchingStep(site.hotp, row.value.secret, code, now, row.value.lastStep);
        if step.None? then (db, Ok(None)) else
        var (db', moved) := AdvancedStep(db, user, step.value);
        (db', Ok(if moved then Some(App) else None))
    else if allowRecovery && |code| == 8 then
      var (db', spent) := SpentRecoveryCode(db, user, code);
      (db', Ok(if spent then Some(Recovery) else None))
    else (db, Ok(None))
  }

  /** The same under the account's limit: counted before it is checked, taken back unless it was wrong. */
  function AcceptCounted(site: Site, db: Db, user: string, typed: string, which: Secret, allowRecovery: bool, now: nat)
    : (Db, Option<Result<Option<Used>, string>>)
  {
    var (counted, ok) := TriedAttempt(db, user, now);
    if !ok then (counted, None) else
    var (checked, used) := Accept(site, counted, user, typed, which, allowRecovery, now);
    if used == Ok(None) then (checked, Some(used)) else (ReleasedAttempt(checked, user, now), Some(used))
  }

  // --- the account's own settings ---

  /** The secret of the setup `owner` began, or a new one in place of anyone else's, or of one that cannot be read. */
  function BeginSetup(site: Site, db: Db, user: string, owner: string, drawn: string): (Db, Result<string, string>) {
    if IsEnabled(db, user) then (db, Err("Two-step sign-in is already on.")) else
    var mine := MfaSecret(db, user, SetupBy(owner));
    if mine.Some? && site.opens(mine.value.secret) then (ShownTo(db, mine.value.secret, owner), Ok(mine.value.secret))
    else (ShownTo(BegunMfa(db, user, drawn, owner), drawn, owner), Ok(drawn))
  }

  function ShownTo(db: Db, secret: string, owner: string): Db {
    db.(log := db.log.(shown := db.log.shown + {(secret, owner)}, used := db.log.used + {secret}))
  }

  /** Turns it on, ends every other session and every pending sign-in. `owner` confirmed it. */
  function Enable(db: Db, user: string, keep: Option<string>, owner: string, codes: set<string>): (Db, Result<(), string>) {
    if user !in db.mfa || db.mfa[user].enabled then (db, Err("Start setup again.")) else
    var on := db.(mfa := db.mfa[user := db.mfa[user].(enabled := true, begunBy := "")],
                  recovery := ReplacedCodes(db.recovery, user, codes),
                  log := db.log.(confirmed := db.log.confirmed[user := owner]));
    (DeletedPendingFor(DeletedSessionsFor(on, user, keep), user), Ok(()))
  }

  function ConfirmSetup(site: Site, db: Db, user: string, typed: string, keep: string, codes: set<string>, now: nat)
    : (Db, Result<(), string>)
  {
    var (checked, used) := Accept(site, db, user, typed, SetupBy(keep), false, now);
    match used
    case Err(why) => (checked, Err(why))
    case Ok(None) => (checked, Err("The code is not correct."))
    case Ok(Some(_)) => Enable(checked, user, Some(keep), keep, codes)
  }

  function TurnOff(site: Site, db: Db, user: string, isAdmin: bool, typed: string, now: nat): (Db, Result<(), string>) {
    if site.policy.Requires(isAdmin) then (db, Err("This site requires two-step sign-in."))
    else if !IsEnabled(db, user) then (db, Err("Two-step sign-in is off."))
    else
      var (checked, used) := AcceptCounted(site, db, user, typed, Enabled, true, now);
      (if Good(used) then RemovedMfa(checked, user) else checked, Answer(used))
  }

  /** A code under the account's limit that was right. */
  predicate Good(used: Option<Result<Option<Used>, string>>) {
    used.Some? && used.value.Ok? && used.value.value.Some?
  }

  /** What the account page is told of it. */
  function Answer(used: Option<Result<Option<Used>, string>>): Result<(), string> {
    match used
    case None => Err("Too many wrong codes.")
    case Some(Err(why)) => Err(why)
    case Some(Ok(None)) => Err("The code is not correct.")
    case Some(Ok(Some(_))) => Ok(())
  }

  function RegenerateCodes(site: Site, db: Db, user: string, typed: string, codes: set<string>, now: nat): (Db, Result<(), string>) {
    if !IsEnabled(db, user) then (db, Err("Two-step sign-in is off."))
    else if |NormaliseCode(typed)| != 6 then (db, Err("Enter the 6-digit code."))
    else
      var (checked, used) := AcceptCounted(site, db, user, typed, Enabled, false, now);
      (if Good(used) then checked.(recovery := ReplacedCodes(checked.recovery, user, codes)) else checked, Answer(used))
  }

  // --- signing in ---

  function StartSession(db: Db, user: string, token: string): (Db, Result<string, string>) {
    if user !in db.active then (db, Err("This account is disabled."))
    else (db.(sessions := db.sessions[token := SiteSession(user)], log := db.log.(used := db.log.used + {token})), Ok(token))
  }

  datatype Step = SessionStep(token: string) | CodeStep(token: string) | SetupStep(token: string)

  predicate Applies(site: Site, primary: Primary) {
    primary == Password || site.forProviders
  }

  /** What a password or provider sign-in leads to: a code owed, a setup owed, or a session. */
  function AfterPrimary(site: Site, db: Db, user: string, isAdmin: bool, primary: Primary, token: string, now: nat)
    : (Db, Result<Step, string>)
  {
    if Applies(site, primary) && IsEnabled(db, user) then
      (InsertedPending(db, token, Pending(user, Code, now + PENDING_LIFETIME, 0), now), Ok(CodeStep(token)))
    else if Applies(site, primary) && site.policy.Requires(isAdmin) then
      (InsertedPending(db, token, Pending(user, Setup, now + PENDING_LIFETIME, 0), now), Ok(SetupStep(token)))
    else
      var (db', r) := StartSession(db, user, token);
      (db', match r case Ok(t) => Ok(SessionStep(t)) case Err(why) => Err(why))
  }

  datatype Refusal = WrongCode(left: nat) | Ended | Locked | Expired | Failed(why: string)

  /** A pending sign-in's next try, or its end when it has had them all. */
  function TakeTry(db: Db, token: string): (Db, Result<nat, Refusal>) {
    var (tried, tries) := TriedPending(db, token);
    if tries.Some? then (tried, Ok(tries.value)) else (DeletedPending(tried, token), Err(Ended))
  }

  /** The try was wrong; after the fifth nothing is pending any more. */
  function Wronged(db: Db, token: string, tries: nat): (Db, Refusal) {
    if tries >= MAX_FAILURES_PER_PENDING then (DeletedPending(db, token), Ended)
    else (db, WrongCode(MAX_FAILURES_PER_PENDING - tries))
  }

  /** The session that follows a spent code. */
  function Finish(db: Db, token: string, user: string, session: string): (Db, Result<string, Refusal>) {
    var (started, r) := StartSession(DeletedPending(db, token), user, session);
    (started, match r case Ok(t) => Ok(t) case Err(why) => Err(Failed(why)))
  }

  function FinishWithCode(site: Site, db: Db, token: string, typed: string, session: string, now: nat): (Db, Result<string, Refusal>) {
    var p := LoadPending(db, token, now);
    if p.None? || p.value.stage != Code then (db, Err(Expired)) else
    var (tried, tries) := TakeTry(db, token);
    match tries
    case Err(refusal) => (tried, Err(refusal))
    case Ok(n) =>
      var (checked, used) := AcceptCounted(site, tried, p.value.user, typed, Enabled, true, now);
      match used
      case None => (checked, Err(Locked))
      case Some(Ok(Some(_))) => Finish(checked, token, p.value.user, session)
      case Some(Ok(None)) => var (ended, refusal) := Wronged(checked, token, n); (ended, Err(refusal))
      case Some(Err(why)) => (checked, Err(Failed(why)))
  }

  function FinishSetup(site: Site, db: Db, token: string, typed: string, session: string, codes: set<string>, now: nat)
    : (Db, Result<string, Refusal>)
  {
    var p := LoadPending(db, token, now);
    if p.None? || p.value.stage != Setup then (db, Err(Expired))
    else if MfaSecret(db, p.value.user, SetupBy(token)).None? then (DeletedPending(db, token), Err(Expired))
    else
      var (tried, tries) := TakeTry(db, token);
      match tries
      case Err(refusal) => (tried, Err(refusal))
      case Ok(n) =>
        var (checked, used) := Accept(site, tried, p.value.user, typed, SetupBy(token), false, now);
        match used
        case Err(why) => (checked, Err(Failed(why)))
        case Ok(None) => var (ended, refusal) := Wronged(checked, token, n); (ended, Err(refusal))
        case Ok(Some(_)) =>
          var (on, r) := Enable(checked, p.value.user, None, token, codes);
          match r
          case Err(why) => (on, Err(Failed(why)))
          case Ok(_) => Finish(on, token, p.value.user, session)
  }

  // --- every operation ---

  /** The account behind a live site session. */
  function SiteUser(db: Db, token: string): Option<string> {
    if token in db.sessions && db.sessions[token].SiteSession? && db.sessions[token].user in db.active
    then Some(db.sessions[token].user) else None
  }

  datatype Op =
    | OpSignIn(user: string, isAdmin: bool, primary: Primary, drawn: string, now: nat)
    | OpFinishWithCode(token: string, typed: string, drawn: string, now: nat)
    | OpShowPendingSetup(token: string, drawn: string, now: nat)
    | OpFinishSetup(token: string, typed: string, drawn: string, codes: set<string>, now: nat)
    | OpBeginSetup(token: string, drawn: string)
    | OpCancelSetup(token: string)
    | OpConfirmSetup(token: string, typed: string, codes: set<string>, now: nat)
    | OpTurnOff(token: string, isAdmin: bool, typed: string, now: nat)
    | OpRegenerate(token: string, typed: string, codes: set<string>, now: nat)
    | OpReset(user: string)
    | OpChangePassword(token: string)
    | OpAcceptInvite(user: string)
    | OpLogOut(token: string)
    | OpAppSession(token: string, app: string, drawn: string)
    | OpSetActive(user: string, active: bool)

  function Drawn(op: Op): set<string> {
    match op
    case OpSignIn(_, _, _, drawn, _) => {drawn}
    case OpFinishWithCode(_, _, drawn, _) => {drawn}
    case OpShowPendingSetup(_, drawn, _) => {drawn}
    case OpFinishSetup(_, _, drawn, _, _) => {drawn}
    case OpBeginSetup(_, drawn) => {drawn}
    case OpAppSession(_, _, drawn) => {drawn}
    case _ => {}
  }

  function Perform(site: Site, db: Db, op: Op): Db {
    match op
    case OpSignIn(user, isAdmin, primary, drawn, now) => AfterPrimary(site, db, user, isAdmin, primary, drawn, now).0
    case OpFinishWithCode(token, typed, drawn, now) => FinishWithCode(site, db, token, typed, drawn, now).0
    case OpShowPendingSetup(token, drawn, now) =>
      var p := LoadPending(db, token, now);
      if p.Some? && p.value.stage == Setup then BeginSetup(site, db, p.value.user, token, drawn).0 else db
    case OpFinishSetup(token, typed, drawn, codes, now) => FinishSetup(site, db, token, typed, drawn, codes, now).0
    case OpBeginSetup(token, drawn) =>
      var user := SiteUser(db, token);
      if user.Some? then BeginSetup(site, db, user.value, token, drawn).0 else db
    case OpCancelSetup(token) =>
      var user := SiteUser(db, token);
      if user.Some? then CancelledSetup(db, user.value) else db
    case OpConfirmSetup(token, typed, codes, now) =>
      var user := SiteUser(db, token);
      if user.Some? then ConfirmSetup(site, db, user.value, typed, token, codes, now).0 else db
    case OpTurnOff(token, isAdmin, typed, now) =>
      var user := SiteUser(db, token);
      if user.Some? then TurnOff(site, db, user.value, isAdmin, typed, now).0 else db
    case OpRegenerate(token, typed, codes, now) =>
      var user := SiteUser(db, token);
      if user.Some? then RegenerateCodes(site, db, user.value, typed, codes, now).0 else db
    case OpReset(user) => DeletedSessionsFor(RemovedMfa(db, user), user, None)
    case OpChangePassword(token) =>
      var user := SiteUser(db, token);
      if user.Some? then DeletedPendingFor(DeletedSessionsFor(db, user.value, Some(token)), user.value) else db
    case OpAcceptInvite(user) => DeletedPendingFor(DeletedSessionsFor(db, user, None), user)
    case OpLogOut(token) => EndedSession(db, token)
    case OpAppSession(token, app, drawn) =>
      var user := SiteUser(db, token);
      if user.Some? then
        db.(sessions := db.sessions[drawn := AppSession(user.value, app, token)], log := db.log.(used := db.log.used + {drawn}))
      else db
    case OpSetActive(user, active) =>
      if active then db.(active := db.active + {user})
      else DeletedSessionsFor(db.(active := db.active - {user}), user, None)
  }

  /** Signing out of the site, which takes the account's apps along. */
  function EndedSession(db: Db, token: string): Db {
    if token !in db.sessions then db else
    var user := db.sessions[token].user;
    db.(sessions := map t <- db.sessions | t != token && !(db.sessions[t].AppSession? && db.sessions[t].user == user) :: db.sessions[t])
  }
}
