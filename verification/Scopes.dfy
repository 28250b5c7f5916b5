/**
 What an account may do at a place: its rows, strongest first, under the
 outermost lock (src/accounts/users.rs).
 */
module Scopes {
  import opened Wrappers
  import opened Paths

  /** What a row lets an account do, by rank. */
  datatype Scope = Viewer | Editor | Admin {
    function Rank(): nat {
      match this
      case Viewer => 1
      case Editor => 2
      case Admin => 3
    }
  }

  datatype Row = Row(prefix: Path, scope: Scope)

  /** What the checks read of one account: its rows in any order, and the apps it was let into. */
  datatype Account = Account(isAdmin: bool, rows: seq<Row>, grants: set<string>)

  datatype Source = SiteAdmin | AtRow(prefix: Path) | AppAccess

  datatype Access = Access(scope: Scope, source: Source)

  /** The outermost of `locks` over `path`: `min_by_key` on the length. */
  function LockOver(path: Path, locks: seq<Path>): (lock: Option<Path>)
    ensures lock.Some? ==> lock.value in locks && Covers(lock.value, path)
    ensures lock.Some? ==> forall l <- locks :: Covers(l, path) ==> |lock.value| <= |l|
    ensures lock.None? ==> forall l <- locks :: !Covers(l, path)
  {
    if locks == [] then None else
    var rest := LockOver(path, locks[1..]);
    if Covers(locks[0], path) && (rest.None? || |locks[0]| <= |rest.value|) then Some(locks[0]) else rest
  }

  /** A row counts when it covers the place and is not set inside the lock over it. */
  predicate RowCounts(prefix: Path, path: Path, lock: Option<Path>) {
    Covers(prefix, path) && (lock.None? || Covers(prefix, lock.value))
  }

  /** Stronger, or as strong and nearer. */
  predicate Beats(a: Row, b: Row) {
    a.scope.Rank() > b.scope.Rank() || (a.scope == b.scope && |a.prefix| > |b.prefix|)
  }

  /** The best row that counts: `max_by` on scope, then prefix length. */
  function Best(rows: seq<Row>, path: Path, lock: Option<Path>): (best: Option<Row>)
    ensures best.None? ==> forall r <- rows :: !RowCounts(r.prefix, path, lock)
    ensures best.Some? ==> best.value in rows && RowCounts(best.value.prefix, path, lock)
    ensures best.Some? ==> forall r <- rows :: RowCounts(r.prefix, path, lock) ==> !Beats(r, best.value)
  {
    if rows == [] then None else
    var rest := Best(rows[1..], path, lock);
    if RowCounts(rows[0].prefix, path, lock) && (rest.None? || Beats(rows[0], rest.value)) then Some(rows[0]) else rest
  }

  function ExplainScope(account: Account, path: Path, app: Option<string>, locks: seq<Path>): Option<Access> {
    if account.isAdmin then Some(Access(Admin, SiteAdmin)) else
    var lock := LockOver(path, locks);
    var best := Best(account.rows, path, lock);
    if best.Some? then Some(Access(best.value.scope, AtRow(best.value.prefix)))
    else if app.Some? && lock.None? && app.value in account.grants then Some(Access(Viewer, AppAccess))
    else None
  }

  function EffectiveScope(account: Account, path: Path, locks: seq<Path>): Option<Scope> {
    var access := ExplainScope(account, path, None, locks);
    if access.Some? then Some(access.value.scope) else None
  }

  /** The scope on an app that sits in `folder`. */
  function AppScope(account: Account, folder: Path, app: string, locks: seq<Path>): Option<Scope> {
    var access := ExplainScope(account, folder + [app], Some(app), locks);
    if access.Some? then Some(access.value.scope) else None
  }

  /** Nothing, then viewer, then editor, then admin. */
  predicate AtMost(a: Option<Scope>, b: Option<Scope>) {
    a == None || a == b || b == Some(Admin) || (a == Some(Viewer) && b == Some(Editor))
  }

  // --- what decides ---

  /** The outermost lock covers every other lock over the place, so there is one. */
  lemma OutermostLock(path: Path, locks: seq<Path>, lock: Path)
    ensures LockOver(path, locks) == Some(lock) <==>
              && lock in locks && Covers(lock, path)
              && forall l <- locks :: Covers(l, path) ==> Covers(lock, l)
  {
    var found := LockOver(path, locks);
    if found.Some? {
      forall l <- locks | Covers(l, path) ensures Covers(found.value, l) {
        PrefixesChain(found.value, l, path);
      }
      if lock in locks && Covers(lock, path) && (forall l <- locks :: Covers(l, path) ==> Covers(lock, l)) {
        assert Covers(lock, found.value) && Covers(found.value, lock);
        assert lock == found.value;
      }
    }
  }

  /** The best row is one row, however the rows are listed. */
  lemma BestIsUnique(rows: seq<Row>, path: Path, lock: Option<Path>, row: Row)
    requires row in rows && RowCounts(row.prefix, path, lock)
    requires forall r <- rows :: RowCounts(r.prefix, path, lock) ==> !Beats(r, row)
    ensures Best(rows, path, lock) == Some(row)
  {
    var best := Best(rows, path, lock).value;
    assert !Beats(best, row) && !Beats(row, best);
    assert best.scope == row.scope && |best.prefix| == |row.prefix|;
    PrefixesChain(best.prefix, row.prefix, path);
    assert best.prefix == row.prefix;
  }

  /** If every row that counts here counts there, there is at least as much there. */
  lemma MoreRowsCountMore(rows: seq<Row>, path: Path, lock: Option<Path>,
                          rows': seq<Row>, path': Path, lock': Option<Path>)
    requires forall r <- rows :: RowCounts(r.prefix, path, lock) ==> r in rows' && RowCounts(r.prefix, path', lock')
    ensures var a := Best(rows, path, lock); var b := Best(rows', path', lock');
            a.Some? ==> b.Some? && a.value.scope.Rank() <= b.value.scope.Rank()
  {
  }

  /** A row over the place that no lock over the place is above. */
  predicate Holds(r: Row, path: Path, locks: seq<Path>) {
    Covers(r.prefix, path) && forall l <- locks | Covers(l, path) :: Covers(r.prefix, l)
  }

  lemma HoldsIsCounting(prefix: Path, scope: Scope, path: Path, locks: seq<Path>)
    ensures RowCounts(prefix, path, LockOver(path, locks)) <==> Holds(Row(prefix, scope), path, locks)
  {
    var lock := LockOver(path, locks);
    if lock.Some? {
      OutermostLock(path, locks, lock.value);
    }
  }

  /** The account has a row of this scope that holds at the place. */
  ghost predicate HasRow(account: Account, scope: Scope, path: Path, locks: seq<Path>) {
    exists r <- account.rows :: r.scope == scope && Holds(r, path, locks)
  }

  /** Given access on the app itself, with no lock over it. */
  predicate LetInto(account: Account, path: Path, app: Option<string>, locks: seq<Path>) {
    app.Some? && app.value in account.grants && forall l <- locks :: !Covers(l, path)
  }

  lemma BestScope(account: Account, path: Path, locks: seq<Path>)
    ensures var best := Best(account.rows, path, LockOver(path, locks));
            && (best.None? <==> !HasRow(account, Viewer, path, locks) && !HasRow(account, Editor, path, locks)
                                && !HasRow(account, Admin, path, locks))
            && (best.Some? ==> HasRow(account, best.value.scope, path, locks))
            && (HasRow(account, Admin, path, locks) ==> best.Some? && best.value.scope == Admin)
            && (HasRow(account, Editor, path, locks) ==> best.Some? && best.value.scope != Viewer)
  {
    var best := Best(account.rows, path, LockOver(path, locks));
    forall r <- account.rows ensures RowCounts(r.prefix, path, LockOver(path, locks)) <==> Holds(r, path, locks) {
      HoldsIsCounting(r.prefix, r.scope, path, locks);
    }
  }

  /**
   What an account may do, on a project or an app: everything if it is a site
   admin; else admin exactly with an admin row that holds there, editor exactly
   with no such row but an editor's, and viewer exactly with neither but a viewer
   row, or access to the app itself.
   */
  lemma ScopeIsTheStrongestHeld(account: Account, path: Path, app: Option<string>, locks: seq<Path>)
    ensures var access := ExplainScope(account, path, app, locks);
            if account.isAdmin then access == Some(Access(Admin, SiteAdmin)) else
            var scope := ScopeOf(access);
            var admin, editor := HasRow(account, Admin, path, locks), HasRow(account, Editor, path, locks);
            && (scope == Some(Admin) <==> admin)
            && (scope == Some(Editor) <==> !admin && editor)
            && (scope == Some(Viewer) <==> !admin && !editor
                                           && (HasRow(account, Viewer, path, locks) || LetInto(account, path, app, locks)))
    ensures EffectiveScope(account, path, locks) == ScopeOf(ExplainScope(account, path, None, locks))
    ensures app.Some? ==> AppScope(account, path, app.value, locks) == ScopeOf(ExplainScope(account, path + [app.value], app, locks))
  {
    BestScope(account, path, locks);
  }

  /** The source named is the nearest of the rows that hold with that scope, or the app where no row holds. */
  lemma SourceIsTheNearest(account: Account, path: Path, app: Option<string>, locks: seq<Path>)
    requires !account.isAdmin && ExplainScope(account, path, app, locks).Some?
    ensures var access := ExplainScope(account, path, app, locks).value;
            match access.source
            case AtRow(prefix) =>
              && Row(prefix, access.scope) in account.rows && Holds(Row(prefix, access.scope), path, locks)
              && forall r <- account.rows | r.scope == access.scope && Holds(r, path, locks) :: Covers(r.prefix, prefix)
            case AppAccess =>
              access.scope == Viewer && LetInto(account, path, app, locks) && forall r <- account.rows :: !Holds(r, path, locks)
            case SiteAdmin => false
  {
    var best := Best(account.rows, path, LockOver(path, locks));
    forall r <- account.rows ensures RowCounts(r.prefix, path, LockOver(path, locks)) <==> Holds(r, path, locks) {
      HoldsIsCounting(r.prefix, r.scope, path, locks);
    }
    if best.Some? {
      forall r <- account.rows | r.scope == best.value.scope && Holds(r, path, locks) ensures Covers(r.prefix, best.value.prefix) {
        assert !Beats(r, best.value);
        PrefixesChain(r.prefix, best.value.prefix, path);
      }
    }
  }

  // --- when two places give the same ---

  /** The same lock, if the same locks are over both. */
  lemma LockSame(x: Path, locks: seq<Path>, y: Path, locks': seq<Path>)
    requires forall l :: (l in locks && Covers(l, x)) <==> (l in locks' && Covers(l, y))
    ensures LockOver(x, locks) == LockOver(y, locks')
  {
    var lock := LockOver(x, locks);
    if lock.Some? {
      OutermostLock(x, locks, lock.value);
      OutermostLock(y, locks', lock.value);
    }
  }

  /** Access on the app itself, which a lock closes. */
  predicate AppOpen(account: Account, path: Path, app: Option<string>, locks: seq<Path>) {
    app.Some? && LockOver(path, locks).None? && app.value in account.grants
  }

  /** The same access, if the same rows count and the app is as open. */
  lemma ExplainSame(a: Account, x: Path, app: Option<string>, locks: seq<Path>,
                    b: Account, y: Path, app': Option<string>, locks': seq<Path>)
    requires a.isAdmin == b.isAdmin && AppOpen(a, x, app, locks) == AppOpen(b, y, app', locks')
    requires forall r: Row :: (r in a.rows && RowCounts(r.prefix, x, LockOver(x, locks)))
                              <==> (r in b.rows && RowCounts(r.prefix, y, LockOver(y, locks')))
    ensures ExplainScope(a, x, app, locks) == ExplainScope(b, y, app', locks')
  {
    var best := Best(a.rows, x, LockOver(x, locks));
    if best.Some? {
      BestIsUnique(b.rows, y, LockOver(y, locks'), best.value);
    }
  }

  // --- down the tree, more rows, more locks ---

  /** The lock over a place still decides below it, unless none was over it. */
  lemma LockBelow(p: Path, q: Path, locks: seq<Path>)
    requires Covers(p, q)
    ensures LockOver(p, locks).Some? ==> LockOver(q, locks) == LockOver(p, locks)
    ensures LockOver(p, locks).None? && LockOver(q, locks).Some? ==> Covers(p, LockOver(q, locks).value)
  {
    var above := LockOver(p, locks);
    var below := LockOver(q, locks);
    if above.Some? {
      forall l <- locks | Covers(l, q) ensures Covers(above.value, l) {
        if |l| < |above.value| {
          PrefixesChain(l, p, q);
        } else {
          PrefixesChain(above.value, l, q);
        }
      }
      OutermostLock(q, locks, above.value);
    } else if below.Some? {
      PrefixesChain(p, below.value, q);
      PrefixesChain(below.value, p, q);
    }
  }

  /** Scopes only add going down: nothing below narrows what a row above grants. */
  lemma ScopeNeverShrinksDown(account: Account, p: Path, q: Path, locks: seq<Path>)
    requires Covers(p, q)
    ensures AtMost(EffectiveScope(account, p, locks), EffectiveScope(account, q, locks))
  {
    LockBelow(p, q, locks);
    var above := LockOver(p, locks);
    var below := LockOver(q, locks);
    forall r <- account.rows | RowCounts(r.prefix, p, above) ensures RowCounts(r.prefix, q, below) {
      CoversOnward(r.prefix, p, q);
      if above.None? && below.Some? {
        CoversOnward(r.prefix, p, below.value);
      }
    }
    MoreRowsCountMore(account.rows, p, above, account.rows, q, below);
  }

  lemma CoversOnward(a: Path, b: Path, c: Path)
    requires Covers(a, b) && Covers(b, c)
    ensures Covers(a, c)
  {
  }

  /** More rows never lower a scope. */
  lemma MoreRowsNeverLower(account: Account, more: Account, path: Path, app: Option<string>, locks: seq<Path>)
    requires more.isAdmin == account.isAdmin && more.grants == account.grants
    requires forall r <- account.rows :: r in more.rows
    ensures AtMost(ScopeOf(ExplainScope(account, path, app, locks)), ScopeOf(ExplainScope(more, path, app, locks)))
  {
    var lock := LockOver(path, locks);
    MoreRowsCountMore(account.rows, path, lock, more.rows, path, lock);
  }

  function ScopeOf(access: Option<Access>): Option<Scope> {
    if access.Some? then Some(access.value.scope) else None
  }

  /** More locks never raise one, at a project or on an app. */
  lemma MoreLocksNeverRaise(account: Account, path: Path, app: Option<string>, locks: seq<Path>, more: seq<Path>)
    requires forall l <- locks :: l in more
    ensures AtMost(ScopeOf(ExplainScope(account, path, app, more)), ScopeOf(ExplainScope(account, path, app, locks)))
  {
    var few := LockOver(path, locks);
    var many := LockOver(path, more);
    if few.Some? {
      PrefixesChain(many.value, few.value, path);
      forall r <- account.rows | RowCounts(r.prefix, path, many) ensures RowCounts(r.prefix, path, few) {
        CoversOnward(r.prefix, many.value, few.value);
      }
    }
    MoreRowsCountMore(account.rows, path, many, account.rows, path, few);
  }

  /** The whole site locked, as an unreadable tree answers, is the least there is. */
  lemma WholeSiteLockedIsLeast(account: Account, path: Path, app: Option<string>, locks: seq<Path>)
    ensures AtMost(ScopeOf(ExplainScope(account, path, app, [[]])), ScopeOf(ExplainScope(account, path, app, locks)))
    ensures !account.isAdmin ==>
              (EffectiveScope(account, path, [[]]).Some? <==> exists r <- account.rows :: r.prefix == [])
  {
    OutermostLock(path, [[]], []);
    var closed: Option<Path> := Some([]);
    assert forall r <- account.rows :: RowCounts(r.prefix, path, closed) <==> r.prefix == [];
    MoreRowsCountMore(account.rows, path, closed, account.rows, path, LockOver(path, locks));
  }

  // --- inside a lock ---

  /**
   Under its outermost lock a subtree is uniform: every place inside has what
   the locked project has, for the same reason, whatever is set inside.
   */
  lemma LockedSubtreeIsUniform(account: Account, path: Path, app: Option<string>, locks: seq<Path>)
    requires LockOver(path, locks).Some?
    ensures ExplainScope(account, path, app, locks) ==
            ExplainScope(account, LockOver(path, locks).value, None, locks)
  {
    var lock := LockOver(path, locks).value;
    OutermostLock(path, locks, lock);
    forall l <- locks | Covers(l, lock) ensures Covers(lock, l) {
      CoversOnward(l, lock, path);
    }
    OutermostLock(lock, locks, lock);
    forall r <- account.rows ensures RowCounts(r.prefix, path, Some(lock)) <==> RowCounts(r.prefix, lock, Some(lock)) {
      if Covers(r.prefix, lock) {
        CoversOnward(r.prefix, lock, path);
      }
    }
    if Best(account.rows, lock, Some(lock)).Some? {
      BestIsUnique(account.rows, path, Some(lock), Best(account.rows, lock, Some(lock)).value);
    }
  }
}
