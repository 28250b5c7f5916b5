/**
 Between the steps of a project move (src/platform/projects.rs): first each app
 names its new project, then the tree moves, then the access rows. What the
 states in between give is compared with the state before and the state after,
 at the places that stay, at the place that is left and, for what moves, at its
 new place.
 */
module MoveSteps {
  import opened Wrappers
  import opened Paths
  import opened Folders
  import opened Scopes
  import opened Gates
  import opened Moves

  // --- nothing has moved yet ---

  lemma NothingMovedYet(table: Table, folders: seq<Folder>, from: Path, to: Path)
    requires NothingAt(table, folders, to)
    ensures LockedPrefixes(folders, Some(Relocation(from, to))) == LockedPaths(folders)
  {
    assert forall p <- LockedPaths(folders) :: p in Live(folders);
    NoOldPlaces(LockedPaths(folders), Relocation(from, to));
  }

  lemma {:induction false} NoOldPlaces(locked: seq<Path>, job: Relocation)
    requires forall p <- locked :: !Covers(job.to, p)
    ensures OldPlaces(locked, job) == []
  {
    if locked != [] {
      NoOldPlaces(locked[1..], job);
    }
  }

  // --- the places that stay ---

  /** The locks of the old tree, each still held where it was. */
  lemma HalfwayHoldsOldLocks(folders: seq<Folder>, from: Path, to: Path)
    requires to != []
    ensures forall l <- LockedPaths(folders) ::
              l in LockedPrefixes(Relocated(folders, from, to), Some(Relocation(from, to)))
  {
    RelocatedLocks(folders, from, to);
    forall l <- LockedPaths(folders)
      ensures l in LockedPrefixes(Relocated(folders, from, to), Some(Relocation(from, to)))
    {
      var there := Moved(from, to, l);
      assert there in LockedPaths(Relocated(folders, from, to));
      if Covers(from, l) {
        MovedBack(from, to, l);
      }
    }
  }

  /**
   With the tree moved and the rows still where they were, nobody has more at
   any place, or on any app, than before the tree moved.
   */
  lemma HalfwayNoMoreThanBefore(folders: seq<Folder>, from: Path, to: Path, account: Account, path: Path, app: Option<string>)
    requires to != []
    ensures AtMost(
              ScopeOf(ExplainScope(account, path, app, LockedPrefixes(Relocated(folders, from, to), Some(Relocation(from, to))))),
              ScopeOf(ExplainScope(account, path, app, LockedPrefixes(folders, None))))
  {
    HalfwayHoldsOldLocks(folders, from, to);
    MoreLocksNeverRaise(account, path, app, LockedPaths(folders),
                        LockedPrefixes(Relocated(folders, from, to), Some(Relocation(from, to))));
  }

  /** Nor more than after the rows have moved too, at every place that stays. */
  lemma StayingNoMoreThanAfter(table: Table, folders: seq<Folder>, from: Path, to: Path, user: string,
                               before: Account, after: Account, path: Path, app: Option<string>)
    requires to != [] && Apart(from, to) && NothingAt(table, folders, to)
    requires Lists(before.rows, table, user) && Lists(after.rows, MovedTable(table, from, to), user)
    requires after.isAdmin == before.isAdmin && after.grants == before.grants
    requires !Covers(from, path)
    ensures AtMost(
              ScopeOf(ExplainScope(before, path, app, LockedPrefixes(Relocated(folders, from, to), Some(Relocation(from, to))))),
              ScopeOf(ExplainScope(after, path, app, LockedPrefixes(Relocated(folders, from, to), None))))
  {
    var halfway := LockedPrefixes(Relocated(folders, from, to), Some(Relocation(from, to)));
    var done := LockedPaths(Relocated(folders, from, to));
    var staying := before.(rows := Kept(before.rows, path));
    MovedTableRows(table, from, to);
    forall r <- staying.rows ensures r in after.rows {
      assert (user, r.prefix) in table;
      CoversThroughRow(from, r.prefix, path);
    }
    KeptDecides(before, path, app, halfway);
    MoreRowsNeverLower(staying, after, path, app, halfway);
    MoreLocksNeverRaise(after, path, app, done, halfway);
  }

  lemma CoversThroughRow(from: Path, prefix: Path, path: Path)
    requires Covers(prefix, path) && !Covers(from, path)
    ensures !Covers(from, prefix)
  {
    if Covers(from, prefix) {
      CoversOnward(from, prefix, path);
    }
  }

  function Kept(rows: seq<Row>, path: Path): (kept: seq<Row>)
    ensures forall r :: r in kept <==> r in rows && Covers(r.prefix, path)
  {
    if rows == [] then []
    else if Covers(rows[0].prefix, path) then [rows[0]] + Kept(rows[1..], path)
    else Kept(rows[1..], path)
  }

  /** Rows that do not cover a place have no say there. */
  lemma KeptDecides(account: Account, path: Path, app: Option<string>, locks: seq<Path>)
    ensures ExplainScope(account.(rows := Kept(account.rows, path)), path, app, locks) == ExplainScope(account, path, app, locks)
  {
    var best := Best(account.rows, path, LockOver(path, locks));
    if best.Some? {
      BestIsUnique(Kept(account.rows, path), path, LockOver(path, locks), best.value);
    }
  }

  /**
   The first step names each app's new project while the tree is still old. An
   app in that state is restricted, whatever its own setting says.
   */
  lemma NamedAheadIsRestricted(table: Table, folders: seq<Folder>, from: Path, to: Path, meta: AppMeta, default: string, within: string)
    requires to != [] && NothingAt(table, folders, to) && Covers(from, meta.project)
    ensures ResolveGate(meta.(project := Moved(from, to, meta.project)), folders, default, within).gate == "restricted"
  {
    var ahead := meta.(project := Moved(from, to, meta.project));
    assert Covers(to, ahead.project) && ahead.project !in Live(folders);
    ResolveGateIs(ahead, folders, default, within);
  }

  // --- when one place gives no more than another ---

  /** A row that counts at `x` is above every row that counts at `y`, and above what the app itself gives there. */
  ghost predicate RowOutranks(account: Account, x: Path, y: Path, app: Option<string>, locks: seq<Path>) {
    && !account.isAdmin
    && exists r <- account.rows ::
         && RowCounts(r.prefix, x, LockOver(x, locks))
         && (forall s <- account.rows :: RowCounts(s.prefix, y, LockOver(y, locks)) ==> s.scope.Rank() < r.scope.Rank())
         && (AppOpen(account, y, app, locks) ==> r.scope != Viewer)
  }

  /** The app itself is open to the account at `x`, and nothing is at `y`. */
  ghost predicate OnlyAppOpen(account: Account, x: Path, app: Option<string>, y: Path, app': Option<string>, locks: seq<Path>) {
    && !account.isAdmin
    && AppOpen(account, x, app, locks) && !AppOpen(account, y, app', locks)
    && forall s <- account.rows :: !RowCounts(s.prefix, y, LockOver(y, locks))
  }

  /** A row outranks exactly when the deciding one does. */
  lemma OutranksIfBest(account: Account, x: Path, y: Path, app: Option<string>, locks: seq<Path>)
    ensures var here, there := Best(account.rows, x, LockOver(x, locks)), Best(account.rows, y, LockOver(y, locks));
            RowOutranks(account, x, y, app, locks) <==>
            && !account.isAdmin && here.Some?
            && (there.Some? ==> there.value.scope.Rank() < here.value.scope.Rank())
            && (AppOpen(account, y, app, locks) ==> here.value.scope != Viewer)
  {
    var here, there := Best(account.rows, x, LockOver(x, locks)), Best(account.rows, y, LockOver(y, locks));
    if here.Some? {
      assert forall r <- account.rows :: RowCounts(r.prefix, x, LockOver(x, locks)) ==> r.scope.Rank() <= here.value.scope.Rank();
    }
    if there.Some? {
      assert forall s <- account.rows :: RowCounts(s.prefix, y, LockOver(y, locks)) ==> s.scope.Rank() <= there.value.scope.Rank();
    }
  }

  lemma OnlyAppIfNone(account: Account, x: Path, app: Option<string>, y: Path, app': Option<string>, locks: seq<Path>)
    ensures OnlyAppOpen(account, x, app, y, app', locks) <==>
            && !account.isAdmin && AppOpen(account, x, app, locks) && !AppOpen(account, y, app', locks)
            && Best(account.rows, y, LockOver(y, locks)).None?
  {
  }

  /** One place gives no more than another exactly when no row outranks there and the app is not all there is. */
  lemma NoMoreExactlyWhen(account: Account, x: Path, app: Option<string>, y: Path, app': Option<string>, locks: seq<Path>)
    ensures AtMost(ScopeOf(ExplainScope(account, x, app, locks)), ScopeOf(ExplainScope(account, y, app', locks)))
            <==> !RowOutranks(account, x, y, app', locks) && !OnlyAppOpen(account, x, app, y, app', locks)
  {
    if !account.isAdmin {
      OutranksIfBest(account, x, y, app', locks);
      OnlyAppIfNone(account, x, app, y, app', locks);
    }
  }

  // --- what moves, at its new place ---

  /** Nothing is at the new place yet: what covers a place there is what covers its parent. */
  lemma AboveNewPlace(to: Path, place: Path, prefix: Path)
    requires to != [] && Covers(to, place) && !Covers(to, prefix)
    ensures Covers(prefix, place) <==> Covers(prefix, Parent(to))
  {
    if Covers(prefix, place) && |prefix| >= |to| {
      PrefixesChain(to, prefix, place);
    }
    if Covers(prefix, Parent(to)) {
      CoversOnward(Parent(to), to, place);
      CoversOnward(prefix, Parent(to), place);
    }
  }

  lemma NoLockAtNewPlace(table: Table, folders: seq<Folder>, to: Path)
    requires NothingAt(table, folders, to)
    ensures forall l <- LockedPaths(folders) :: !Covers(to, l)
  {
    assert forall l <- LockedPaths(folders) :: l in Live(folders);
  }

  lemma NoRowAtNewPlace(table: Table, folders: seq<Folder>, to: Path, rows: seq<Row>, user: string)
    requires NothingAt(table, folders, to) && Lists(rows, table, user)
    ensures forall r <- rows :: !Covers(to, r.prefix)
  {
    forall r <- rows ensures !Covers(to, r.prefix) {
      assert (user, r.prefix) in table;
    }
  }

  /**
   An app that names its new project ahead of the tree gets, at its new place,
   what is given at the place the project is moving into.
   */
  lemma NamedAheadIsTheParent(table: Table, folders: seq<Folder>, from: Path, to: Path, user: string,
                              account: Account, place: Path, app: Option<string>)
    requires to != [] && NothingAt(table, folders, to) && Lists(account.rows, table, user) && Covers(to, place)
    ensures ExplainScope(account, place, app, LockedPrefixes(folders, Some(Relocation(from, to)))) ==
            ExplainScope(account, Parent(to), app, LockedPrefixes(folders, None))
  {
    var locks := LockedPaths(folders);
    NothingMovedYet(table, folders, from, to);
    NoLockAtNewPlace(table, folders, to);
    NoRowAtNewPlace(table, folders, to, account.rows, user);
    forall l <- locks ensures Covers(l, place) <==> Covers(l, Parent(to)) {
      AboveNewPlace(to, place, l);
    }
    LockSame(place, locks, Parent(to), locks);
    forall r <- account.rows ensures Covers(r.prefix, place) <==> Covers(r.prefix, Parent(to)) {
      AboveNewPlace(to, place, r.prefix);
    }
    ExplainSame(account, place, app, locks, account, Parent(to), app, locks);
  }

  /** A lock that moves: at or under the project, and over the place. */
  predicate LockedInside(locks: seq<Path>, from: Path, path: Path) {
    exists l <- locks :: Covers(from, l) && Covers(l, path)
  }

  /** The locks answered halfway: each where it was, and those that moved also where they are now. */
  lemma HalfwayLocks(table: Table, folders: seq<Folder>, from: Path, to: Path, l: Path)
    requires to != [] && Apart(from, to) && NothingAt(table, folders, to)
    ensures l in LockedPrefixes(Relocated(folders, from, to), Some(Relocation(from, to))) <==>
            l in LockedPaths(folders) || exists k <- LockedPaths(folders) :: Covers(from, k) && l == Moved(from, to, k)
  {
    var job := Relocation(from, to);
    var moved := LockedPaths(Relocated(folders, from, to));
    RelocatedLocks(folders, from, to);
    HalfwayHoldsOldLocks(folders, from, to);
    NoLockAtNewPlace(table, folders, to);
    if l in OldPlaces(moved, job) {
      var m :| m in moved && Covers(to, m) && l == Moved(to, from, m);
      var k :| k in LockedPaths(folders) && m == Moved(from, to, k);
      MovedBack(from, to, k);
    }
  }

  lemma MovedCovers(from: Path, to: Path, p: Path, q: Path)
    requires Covers(from, p) && Covers(from, q)
    ensures Covers(Moved(from, to, p), Moved(from, to, q)) <==> Covers(p, q)
  {
    var p', q' := Moved(from, to, p), Moved(from, to, q);
    assert p == from + p[|from|..] && q == from + q[|from|..];
    assert p'[|to|..] == p[|from|..] && q'[|to|..] == q[|from|..];
    if Covers(p', q') {
      assert p[|from|..] == q'[|to|..][..|p| - |from|] == q[|from|..][..|p| - |from|];
    }
    if Covers(p, q) {
      assert p[|from|..] == q[|from|..][..|p| - |from|];
    }
  }

  /** The locks over the new place halfway: those over the place moved into, and those that moved. */
  lemma HalfwayLocksOver(table: Table, folders: seq<Folder>, from: Path, to: Path, p: Path, l: Path)
    requires to != [] && Apart(from, to) && NothingAt(table, folders, to) && Covers(from, p)
    ensures var locks := LockedPaths(folders);
            l in LockedPrefixes(Relocated(folders, from, to), Some(Relocation(from, to))) && Covers(l, Moved(from, to, p))
            <==> || (l in locks && Covers(l, Parent(to)))
                 || (exists k <- locks :: Covers(from, k) && Covers(k, p) && l == Moved(from, to, k))
  {
    HalfwayLocks(table, folders, from, to, l);
    NoLockAtNewPlace(table, folders, to);
    if l in LockedPaths(folders) {
      AboveNewPlace(to, Moved(from, to, p), l);
    }
    forall k <- LockedPaths(folders) | Covers(from, k)
      ensures Covers(Moved(from, to, k), Moved(from, to, p)) <==> Covers(k, p)
    {
      MovedCovers(from, to, k, p);
    }
  }

  /** A lock over the place moved into is over the new place. */
  lemma HalfwayLockAbove(table: Table, folders: seq<Folder>, from: Path, to: Path, p: Path)
    requires to != [] && Apart(from, to) && NothingAt(table, folders, to) && Covers(from, p)
    requires LockOver(Parent(to), LockedPaths(folders)).Some?
    ensures LockOver(Moved(from, to, p), LockedPrefixes(Relocated(folders, from, to), Some(Relocation(from, to)))) ==
            LockOver(Parent(to), LockedPaths(folders))
  {
    var q, locks := Moved(from, to, p), LockedPaths(folders);
    var halfway := LockedPrefixes(Relocated(folders, from, to), Some(Relocation(from, to)));
    var above := LockOver(Parent(to), locks).value;
    OutermostLock(Parent(to), locks, above);
    HalfwayLocksOver(table, folders, from, to, p, above);
    forall l <- halfway | Covers(l, q) ensures Covers(above, l) {
      HalfwayLocksOver(table, folders, from, to, p, l);
      if !(l in locks && Covers(l, Parent(to))) {
        CoversOnward(above, Parent(to), to);
        CoversOnward(above, to, l);
      }
    }
    OutermostLock(q, halfway, above);
  }

  /** With none there, it is one that moved, if one did. */
  lemma HalfwayLockInside(table: Table, folders: seq<Folder>, from: Path, to: Path, p: Path)
    requires to != [] && Apart(from, to) && NothingAt(table, folders, to) && Covers(from, p)
    requires LockOver(Parent(to), LockedPaths(folders)).None?
    ensures var lock := LockOver(Moved(from, to, p), LockedPrefixes(Relocated(folders, from, to), Some(Relocation(from, to))));
            && (lock.Some? <==> LockedInside(LockedPaths(folders), from, p))
            && (lock.Some? ==> Covers(to, lock.value))
  {
    var q, locks := Moved(from, to, p), LockedPaths(folders);
    var halfway := LockedPrefixes(Relocated(folders, from, to), Some(Relocation(from, to)));
    var lock := LockOver(q, halfway);
    if lock.Some? {
      HalfwayLocksOver(table, folders, from, to, p, lock.value);
    } else if LockedInside(locks, from, p) {
      var k :| k in locks && Covers(from, k) && Covers(k, p);
      HalfwayLocksOver(table, folders, from, to, p, Moved(from, to, k));
    }
  }

  /**
   With the tree moved and the rows not, what moved gets at its new place what
   is given at the place it moved into, and access on the app itself only where
   no lock moved with it.
   */
  lemma HalfwayIsTheParent(table: Table, folders: seq<Folder>, from: Path, to: Path, user: string,
                           account: Account, p: Path, app: Option<string>)
    requires to != [] && Apart(from, to) && NothingAt(table, folders, to) && Lists(account.rows, table, user)
    requires Covers(from, p)
    ensures ExplainScope(account, Moved(from, to, p), app, LockedPrefixes(Relocated(folders, from, to), Some(Relocation(from, to)))) ==
            ExplainScope(account, Parent(to), if LockedInside(LockedPaths(folders), from, p) then None else app,
                         LockedPrefixes(folders, None))
  {
    var q, locks := Moved(from, to, p), LockedPaths(folders);
    var halfway := LockedPrefixes(Relocated(folders, from, to), Some(Relocation(from, to)));
    var app' := if LockedInside(locks, from, p) then None else app;
    if LockOver(Parent(to), locks).Some? {
      HalfwayLockAbove(table, folders, from, to, p);
    } else {
      HalfwayLockInside(table, folders, from, to, p);
    }
    NoRowAtNewPlace(table, folders, to, account.rows, user);
    forall r <- account.rows
      ensures RowCounts(r.prefix, q, LockOver(q, halfway)) <==> RowCounts(r.prefix, Parent(to), LockOver(Parent(to), locks))
    {
      AboveNewPlace(to, q, r.prefix);
      if Covers(r.prefix, Parent(to)) && LockOver(q, halfway).Some? && Covers(to, LockOver(q, halfway).value) {
        CoversOnward(Parent(to), to, LockOver(q, halfway).value);
        CoversOnward(r.prefix, Parent(to), LockOver(q, halfway).value);
      }
    }
    ExplainSame(account, q, app, halfway, account, Parent(to), app', locks);
  }

  // --- apps named ahead, and the state before ---

  /** The app is all the account has, and the lock that hides it from it is one that moves. */
  ghost predicate AppHiddenByMovingLock(account: Account, from: Path, p: Path, app: string, locks: seq<Path>)
    requires from != []
  {
    && !account.isAdmin && app in account.grants
    && LockOver(Parent(from), locks).None? && LockOver(p, locks).Some?
    && forall r <- account.rows :: !RowCounts(r.prefix, p, LockOver(p, locks))
  }

  lemma RowsAboveStillCount(account: Account, above: Path, p: Path, app: Option<string>, locks: seq<Path>)
    requires Covers(above, p)
    ensures forall r <- account.rows :: RowCounts(r.prefix, above, LockOver(above, locks)) ==> RowCounts(r.prefix, p, LockOver(p, locks))
    ensures !RowOutranks(account, above, p, app, locks)
  {
    LockBelow(above, p, locks);
    forall r <- account.rows | RowCounts(r.prefix, above, LockOver(above, locks)) ensures RowCounts(r.prefix, p, LockOver(p, locks)) {
      CoversOnward(r.prefix, above, p);
      if LockOver(above, locks).None? && LockOver(p, locks).Some? {
        CoversOnward(r.prefix, above, LockOver(p, locks).value);
      }
    }
  }

  /**
   Wherever a project moves, an app named ahead gives at its new place no more
   than it gave at its old one, but in two cases: a row over the place moved
   into outranks all the account had at the old place, or the app itself was
   hidden by a lock that the place moved into is not under.
   */
  lemma NamedAheadNoMoreThanBefore(table: Table, folders: seq<Folder>, from: Path, to: Path, user: string,
                                   account: Account, p: Path, app: string)
    requires to != [] && NothingAt(table, folders, to) && Lists(account.rows, table, user) && Covers(from, p)
    ensures var locks := LockedPrefixes(folders, None);
            AtMost(ScopeOf(ExplainScope(account, Moved(from, to, p), Some(app), LockedPrefixes(folders, Some(Relocation(from, to))))),
                   ScopeOf(ExplainScope(account, p, Some(app), locks)))
            <==> && !RowOutranks(account, Parent(to), p, Some(app), locks)
                 && !OnlyAppOpen(account, Parent(to), Some(app), p, Some(app), locks)
  {
    NamedAheadIsTheParent(table, folders, from, to, user, account, Moved(from, to, p), Some(app));
    NoMoreExactlyWhen(account, Parent(to), Some(app), p, Some(app), LockedPrefixes(folders, None));
  }

  /** For a rename in place only the second can be, and the lock is one at or under the project. */
  lemma RenamedAheadNoMoreThanBefore(table: Table, folders: seq<Folder>, from: Path, to: Path, user: string,
                                     account: Account, p: Path, app: string)
    requires Siblings(from, to) && NothingAt(table, folders, to) && Lists(account.rows, table, user) && Covers(from, p)
    ensures var locks := LockedPrefixes(folders, None);
            AtMost(ScopeOf(ExplainScope(account, Moved(from, to, p), Some(app), LockedPrefixes(folders, Some(Relocation(from, to))))),
                   ScopeOf(ExplainScope(account, p, Some(app), locks)))
            <==> !AppHiddenByMovingLock(account, from, p, app, locks)
  {
    var locks := LockedPrefixes(folders, None);
    NamedAheadNoMoreThanBefore(table, folders, from, to, user, account, p, app);
    CoversOnward(Parent(from), from, p);
    RowsAboveStillCount(account, Parent(from), p, Some(app), locks);
    assert OnlyAppOpen(account, Parent(to), Some(app), p, Some(app), locks) <==> AppHiddenByMovingLock(account, from, p, app, locks);
  }

  /** The first case happens: an editor of the place moved into, who has nothing at the old one. */
  lemma NamedAheadOutranked(from: Path, to: Path, app: string)
    requires from != [] && to != [] && Apart(from, to) && !Covers(Parent(to), from)
    ensures var account := Account(false, [Row(Parent(to), Editor)], {});
            var folders := [Folder(from, "", 0, false, [], None)];
            && NothingAt(map[("u", Parent(to)) := Editor], folders, to)
            && AppScope(account, from, app, LockedPrefixes(folders, None)) == None
            && AppScope(account, to, app, LockedPrefixes(folders, Some(Relocation(from, to)))) == Some(Editor)
  {
    var account := Account(false, [Row(Parent(to), Editor)], {});
    var table: Table := map[("u", Parent(to)) := Editor];
    var folders := [Folder(from, "", 0, false, [], None)];
    assert LockedPaths(folders) == [];
    NothingMovedYet(table, folders, from, to);
    assert Covers(Parent(to), to + [app]) by {
      CoversOnward(Parent(to), to, to + [app]);
    }
    if Covers(Parent(to), from + [app]) {
      PrefixesChain(Parent(to), from, from + [app]);
      PrefixesChain(from, Parent(to), from + [app]);
      CoversOnward(from, Parent(to), to);
    }
    assert account.rows[0] in account.rows;
  }

  // --- the tree moved, and the state before ---

  /** The same with the tree moved, except that a lock that moves hides the app still. */
  lemma HalfwayNoMoreThanItHad(table: Table, folders: seq<Folder>, from: Path, to: Path, user: string,
                               account: Account, p: Path, app: string)
    requires to != [] && Apart(from, to) && NothingAt(table, folders, to) && Lists(account.rows, table, user) && Covers(from, p)
    ensures var locks := LockedPrefixes(folders, None);
            AtMost(ScopeOf(ExplainScope(account, Moved(from, to, p), Some(app),
                                        LockedPrefixes(Relocated(folders, from, to), Some(Relocation(from, to))))),
                   ScopeOf(ExplainScope(account, p, Some(app), locks)))
            <==> && !RowOutranks(account, Parent(to), p, Some(app), locks)
                 && !(!LockedInside(locks, from, p) && OnlyAppOpen(account, Parent(to), Some(app), p, Some(app), locks))
  {
    var locks := LockedPrefixes(folders, None);
    var app' := if LockedInside(locks, from, p) then None else Some(app);
    HalfwayIsTheParent(table, folders, from, to, user, account, p, Some(app));
    NoMoreExactlyWhen(account, Parent(to), app', p, Some(app), locks);
  }

  /** Halfway through a rename in place nothing that moves is more open at its new place than it was at its old one. */
  lemma RenamedHalfwayNoMoreThanItHad(table: Table, folders: seq<Folder>, from: Path, to: Path, user: string,
                                      account: Account, p: Path, app: string)
    requires Siblings(from, to) && Apart(from, to) && NothingAt(table, folders, to) && Lists(account.rows, table, user)
    requires Covers(from, p)
    ensures AtMost(ScopeOf(ExplainScope(account, Moved(from, to, p), Some(app),
                                        LockedPrefixes(Relocated(folders, from, to), Some(Relocation(from, to))))),
                   ScopeOf(ExplainScope(account, p, Some(app), LockedPrefixes(folders, None))))
  {
    var locks := LockedPrefixes(folders, None);
    HalfwayNoMoreThanItHad(table, folders, from, to, user, account, p, app);
    CoversOnward(Parent(from), from, p);
    RowsAboveStillCount(account, Parent(from), p, Some(app), locks);
    LockBelow(Parent(from), p, locks);
    if LockOver(Parent(from), locks).None? && LockOver(p, locks).Some? {
      LockIsInside(from, p, locks);
    }
  }

  lemma LockIsInside(from: Path, p: Path, locks: seq<Path>)
    requires from != [] && Covers(from, p) && LockOver(Parent(from), locks).None? && LockOver(p, locks).Some?
    ensures LockedInside(locks, from, p)
  {
    var lock := LockOver(p, locks).value;
    PrefixesChain(lock, from, p);
    PrefixesChain(from, lock, p);
    assert |lock| < |from| ==> Covers(lock, Parent(from));
  }

  // --- the place that is left ---

  /** Halfway the old place gives what it gave; with the rows moved too, what the place it was in gives. */
  lemma ThePlaceLeft(table: Table, folders: seq<Folder>, from: Path, to: Path, user: string,
                     before: Account, after: Account, path: Path, app: Option<string>)
    requires from != [] && to != [] && Apart(from, to) && NothingAt(table, folders, to)
    requires Lists(before.rows, table, user) && Lists(after.rows, MovedTable(table, from, to), user)
    requires after.isAdmin == before.isAdmin && after.grants == before.grants
    requires Covers(from, path)
    ensures ExplainScope(before, path, app, LockedPrefixes(Relocated(folders, from, to), Some(Relocation(from, to)))) ==
            ExplainScope(before, path, app, LockedPrefixes(folders, None))
    ensures ExplainScope(after, path, app, LockedPrefixes(Relocated(folders, from, to), None)) ==
            ExplainScope(before, Parent(from), app, LockedPrefixes(folders, None))
  {
    LeftHalfway(table, folders, from, to, before, path, app);
    LeftBehind(table, folders, from, to, user, before, after, path, app);
  }

  /**
   With the tree moved and the rows not, no place gives more than once the rows
   have moved too, except in exactly one case: it is at or under the place that
   is left, and gave more than the place above it, by a row or by the app itself.
   Rows and locks are those before the move.
   */
  lemma HalfwayNoMoreThanAfter(table: Table, folders: seq<Folder>, from: Path, to: Path, user: string,
                               before: Account, after: Account, path: Path, app: Option<string>)
    requires from != [] && to != [] && Apart(from, to) && NothingAt(table, folders, to)
    requires Lists(before.rows, table, user) && Lists(after.rows, MovedTable(table, from, to), user)
    requires after.isAdmin == before.isAdmin && after.grants == before.grants
    ensures var locks := LockedPaths(folders);
            AtMost(
              ScopeOf(ExplainScope(before, path, app, LockedPrefixes(Relocated(folders, from, to), Some(Relocation(from, to))))),
              ScopeOf(ExplainScope(after, path, app, LockedPrefixes(Relocated(folders, from, to), None)))) <==>
            !(Covers(from, path) && (RowOutranks(before, path, Parent(from), app, locks)
                                     || OnlyAppOpen(before, path, app, Parent(from), app, locks)))
  {
    if Covers(from, path) {
      ThePlaceLeft(table, folders, from, to, user, before, after, path, app);
      NoMoreExactlyWhen(before, path, app, Parent(from), app, LockedPaths(folders));
    } else {
      StayingNoMoreThanAfter(table, folders, from, to, user, before, after, path, app);
    }
  }

  lemma LeftHalfway(table: Table, folders: seq<Folder>, from: Path, to: Path, account: Account, path: Path, app: Option<string>)
    requires to != [] && Apart(from, to) && NothingAt(table, folders, to) && Covers(from, path)
    ensures ExplainScope(account, path, app, LockedPrefixes(Relocated(folders, from, to), Some(Relocation(from, to)))) ==
            ExplainScope(account, path, app, LockedPrefixes(folders, None))
  {
    var locks := LockedPaths(folders);
    var halfway := LockedPrefixes(Relocated(folders, from, to), Some(Relocation(from, to)));
    forall l ensures (l in halfway && Covers(l, path)) <==> (l in locks && Covers(l, path)) {
      HalfwayLocks(table, folders, from, to, l);
      forall k <- locks | Covers(from, k) ensures !Covers(Moved(from, to, k), path) {
        if Covers(Moved(from, to, k), path) {
          CoversOnward(to, Moved(from, to, k), path);
          PrefixesApart(from, to, path);
        }
      }
    }
    LockSame(path, halfway, path, locks);
  }

  /** What is over the left place once all has moved is what was over its parent. */
  lemma LeftOver(from: Path, to: Path, path: Path, place: Path)
    requires from != [] && Apart(from, to) && Covers(from, path) && !Covers(from, place)
    ensures Covers(place, path) <==> Covers(place, Parent(from))
    ensures Covers(place, path) ==> !Covers(to, place)
  {
    AboveNewPlace(from, path, place);
    if Covers(place, path) && Covers(to, place) {
      CoversOnward(to, place, path);
      PrefixesApart(from, to, path);
    }
  }

  lemma NothingComesBack(from: Path, to: Path, path: Path, k: Path)
    requires Apart(from, to) && Covers(from, path) && Covers(from, k)
    ensures !Covers(Moved(from, to, k), path) && !Covers(from, Moved(from, to, k))
  {
    if Covers(Moved(from, to, k), path) {
      CoversOnward(to, Moved(from, to, k), path);
      PrefixesApart(from, to, path);
    }
    if Covers(from, Moved(from, to, k)) {
      PrefixesApart(from, to, Moved(from, to, k));
    }
  }

  lemma LeftLocks(folders: seq<Folder>, from: Path, to: Path, path: Path)
    requires from != [] && to != [] && Apart(from, to) && Covers(from, path)
    ensures LockOver(path, LockedPaths(Relocated(folders, from, to))) == LockOver(Parent(from), LockedPaths(folders))
  {
    var locks, done := LockedPaths(folders), LockedPaths(Relocated(folders, from, to));
    RelocatedLocks(folders, from, to);
    forall l ensures (l in done && Covers(l, path)) <==> (l in locks && Covers(l, Parent(from))) {
      if l in done && Covers(l, path) {
        var k :| k in locks && l == Moved(from, to, k);
        if Covers(from, k) {
          NothingComesBack(from, to, path, k);
        } else {
          LeftOver(from, to, path, k);
        }
      }
      if l in locks && Covers(l, Parent(from)) {
        assert !Covers(from, l) && Moved(from, to, l) == l;
        LeftOver(from, to, path, l);
      }
    }
    LockSame(path, done, Parent(from), locks);
  }

  lemma LeftRows(table: Table, from: Path, to: Path, user: string, rows: seq<Row>, rows': seq<Row>, path: Path, r: Row)
    requires from != [] && Apart(from, to) && Covers(from, path)
    requires Lists(rows, table, user) && Lists(rows', MovedTable(table, from, to), user)
    requires forall k <- table :: !Covers(to, k.1)
    ensures (r in rows' && Covers(r.prefix, path)) <==> (r in rows && Covers(r.prefix, Parent(from)))
  {
    MovedTableRows(table, from, to);
    if r in rows' && Covers(r.prefix, path) {
      var k := (user, r.prefix);
      if !(k in table && MovedTable(table, from, to)[k] == table[k] && !Covers(from, k.1)) {
        var k0 :| k0 in table && Covers(from, k0.1) && k == (k0.0, Moved(from, to, k0.1));
        NothingComesBack(from, to, path, k0.1);
      }
      LeftOver(from, to, path, r.prefix);
    }
    if r in rows && Covers(r.prefix, Parent(from)) {
      assert (user, r.prefix) in table && !Covers(from, r.prefix);
      LeftOver(from, to, path, r.prefix);
    }
  }

  lemma LeftBehind(table: Table, folders: seq<Folder>, from: Path, to: Path, user: string,
                   before: Account, after: Account, path: Path, app: Option<string>)
    requires from != [] && to != [] && Apart(from, to) && NothingAt(table, folders, to)
    requires Lists(before.rows, table, user) && Lists(after.rows, MovedTable(table, from, to), user)
    requires after.isAdmin == before.isAdmin && after.grants == before.grants
    requires Covers(from, path)
    ensures ExplainScope(after, path, app, LockedPrefixes(Relocated(folders, from, to), None)) ==
            ExplainScope(before, Parent(from), app, LockedPrefixes(folders, None))
  {
    var locks, done := LockedPaths(folders), LockedPaths(Relocated(folders, from, to));
    LeftLocks(folders, from, to, path);
    forall r: Row ensures (r in after.rows && RowCounts(r.prefix, path, LockOver(path, done)))
                          <==> (r in before.rows && RowCounts(r.prefix, Parent(from), LockOver(Parent(from), locks))) {
      LeftRows(table, from, to, user, before.rows, after.rows, path, r);
    }
    ExplainSame(after, path, app, done, before, Parent(from), app, locks);
  }

  // --- apps named ahead, and the state after ---

  function Inside(locks: seq<Path>, from: Path): (inside: seq<Path>)
    ensures forall l :: l in inside <==> l in locks && Covers(from, l)
  {
    if locks == [] then [] else (if Covers(from, locks[0]) then [locks[0]] else []) + Inside(locks[1..], from)
  }

  /**
   The app is all the account will have: no lock is over the place moved into,
   one moves with the project and hides it, and no row counts under that lock,
   neither one over the place moved into nor one that moves.
   */
  ghost predicate AppWillBeHidden(account: Account, from: Path, to: Path, p: Path, app: string, locks: seq<Path>)
    requires to != []
  {
    && !account.isAdmin && app in account.grants
    && LockOver(Parent(to), locks).None? && LockOver(p, Inside(locks, from)).Some?
    && forall r <- account.rows ::
         && !Covers(r.prefix, Parent(to))
         && !(Covers(from, r.prefix) && RowCounts(r.prefix, p, LockOver(p, Inside(locks, from))))
  }

  lemma LockAfterAbove(table: Table, folders: seq<Folder>, from: Path, to: Path, p: Path)
    requires to != [] && Apart(from, to) && NothingAt(table, folders, to) && Covers(from, p)
    requires LockOver(Parent(to), LockedPaths(folders)).Some?
    ensures LockOver(Moved(from, to, p), LockedPaths(Relocated(folders, from, to))) == LockOver(Parent(to), LockedPaths(folders))
  {
    var q, locks, done := Moved(from, to, p), LockedPaths(folders), LockedPaths(Relocated(folders, from, to));
    var above := LockOver(Parent(to), locks).value;
    OutermostLock(Parent(to), locks, above);
    CoversOnward(above, Parent(to), to);
    LocksAfter(table, folders, from, to, p, above);
    forall l <- done | Covers(l, q) ensures Covers(above, l) {
      LocksAfter(table, folders, from, to, p, l);
      if !(l in locks && Covers(l, Parent(to))) {
        CoversOnward(above, to, l);
      }
    }
    OutermostLock(q, done, above);
  }

  lemma LockAfterInside(table: Table, folders: seq<Folder>, from: Path, to: Path, p: Path)
    requires to != [] && Apart(from, to) && NothingAt(table, folders, to) && Covers(from, p)
    requires LockOver(Parent(to), LockedPaths(folders)).None?
    ensures var inner := LockOver(p, Inside(LockedPaths(folders), from));
            LockOver(Moved(from, to, p), LockedPaths(Relocated(folders, from, to))) ==
            if inner.Some? then Some(Moved(from, to, inner.value)) else None
  {
    var q, locks, done := Moved(from, to, p), LockedPaths(folders), LockedPaths(Relocated(folders, from, to));
    var inner := LockOver(p, Inside(locks, from));
    forall l <- done | Covers(l, q) ensures exists k <- Inside(locks, from) :: Covers(k, p) && l == Moved(from, to, k) {
      LocksAfter(table, folders, from, to, p, l);
    }
    if inner.Some? {
      OutermostLock(p, Inside(locks, from), inner.value);
      LocksAfter(table, folders, from, to, p, Moved(from, to, inner.value));
      forall l <- done | Covers(l, q) ensures Covers(Moved(from, to, inner.value), l) {
        var k :| k in Inside(locks, from) && Covers(k, p) && l == Moved(from, to, k);
        MovedCovers(from, to, inner.value, k);
      }
      OutermostLock(q, done, Moved(from, to, inner.value));
    }
  }

  /** The lock over the new place when all has moved: one over the place moved into, else the outermost that moved. */
  lemma LockAfter(table: Table, folders: seq<Folder>, from: Path, to: Path, p: Path)
    requires to != [] && Apart(from, to) && NothingAt(table, folders, to) && Covers(from, p)
    ensures var above := LockOver(Parent(to), LockedPaths(folders));
            var inner := LockOver(p, Inside(LockedPaths(folders), from));
            LockOver(Moved(from, to, p), LockedPaths(Relocated(folders, from, to))) ==
            if above.Some? then above else if inner.Some? then Some(Moved(from, to, inner.value)) else None
  {
    if LockOver(Parent(to), LockedPaths(folders)).Some? {
      LockAfterAbove(table, folders, from, to, p);
    } else {
      LockAfterInside(table, folders, from, to, p);
    }
  }

  lemma LocksAfter(table: Table, folders: seq<Folder>, from: Path, to: Path, p: Path, l: Path)
    requires to != [] && Apart(from, to) && NothingAt(table, folders, to) && Covers(from, p)
    ensures var locks := LockedPaths(folders);
            l in LockedPaths(Relocated(folders, from, to)) && Covers(l, Moved(from, to, p)) <==>
            || (l in locks && Covers(l, Parent(to)))
            || (exists k <- Inside(locks, from) :: Covers(k, p) && l == Moved(from, to, k))
  {
    var locks := LockedPaths(folders);
    RelocatedLocks(folders, from, to);
    NoLockAtNewPlace(table, folders, to);
    forall k <- locks ensures Covers(Moved(from, to, k), Moved(from, to, p)) <==>
                              if Covers(from, k) then Covers(k, p) else Covers(k, Parent(to))
    {
      if Covers(from, k) {
        MovedCovers(from, to, k, p);
      } else {
        AboveNewPlace(to, Moved(from, to, p), k);
      }
    }
    if l in locks && Covers(l, Parent(to)) {
      NotUnderFrom(from, to, l);
    }
  }

  /** What covers the place moved into is not what moves. */
  lemma NotUnderFrom(from: Path, to: Path, place: Path)
    requires to != [] && Apart(from, to) && Covers(place, Parent(to))
    ensures !Covers(from, place)
  {
    CoversOnward(place, Parent(to), to);
    if Covers(from, place) {
      CoversOnward(from, place, to);
    }
  }

  lemma RowsAfter(table: Table, from: Path, to: Path, user: string, rows: seq<Row>, rows': seq<Row>, p: Path, r: Row)
    requires to != [] && Apart(from, to) && Covers(from, p)
    requires Lists(rows, table, user) && Lists(rows', MovedTable(table, from, to), user)
    requires forall k <- table :: !Covers(to, k.1)
    ensures r in rows' && Covers(r.prefix, Moved(from, to, p)) <==>
            || (r in rows && Covers(r.prefix, Parent(to)))
            || (exists s <- rows :: Covers(from, s.prefix) && Covers(s.prefix, p) && r == Row(Moved(from, to, s.prefix), s.scope))
  {
    MovedTableRows(table, from, to);
    var q, k := Moved(from, to, p), (user, r.prefix);
    if r in rows' && Covers(r.prefix, q) {
      if k in table && MovedTable(table, from, to)[k] == table[k] && !Covers(from, k.1) {
        AboveNewPlace(to, q, r.prefix);
        assert r in rows;
      } else {
        var k0 :| k0 in table && Covers(from, k0.1) && k == (k0.0, Moved(from, to, k0.1)) && MovedTable(table, from, to)[k] == table[k0];
        MovedCovers(from, to, k0.1, p);
        assert Row(k0.1, table[k0]) in rows;
      }
    }
    if r in rows && Covers(r.prefix, Parent(to)) {
      assert (user, r.prefix) in table;
      NotUnderFrom(from, to, r.prefix);
      AboveNewPlace(to, q, r.prefix);
    }
    forall s <- rows | Covers(from, s.prefix) && Covers(s.prefix, p)
      ensures Row(Moved(from, to, s.prefix), s.scope) in rows' && Covers(Moved(from, to, s.prefix), q)
    {
      assert (user, s.prefix) in table;
      MovedCovers(from, to, s.prefix, p);
    }
  }

  /** With as much from rows and no fewer locks, only access to the app itself can be lost. */
  lemma RowsDecideButForApps(a: Account, x: Path, locks: seq<Path>, b: Account, y: Path, locks': seq<Path>, app: string)
    requires a.isAdmin == b.isAdmin && a.grants == b.grants
    requires LockOver(x, locks).Some? ==> LockOver(y, locks').Some?
    requires forall r <- a.rows :: RowCounts(r.prefix, x, LockOver(x, locks)) ==> r in b.rows && RowCounts(r.prefix, y, LockOver(y, locks'))
    ensures AtMost(ScopeOf(ExplainScope(a, x, Some(app), locks)), ScopeOf(ExplainScope(b, y, Some(app), locks')))
            <==> !(&& !a.isAdmin && AppOpen(a, x, Some(app), locks) && !AppOpen(b, y, Some(app), locks')
                   && forall r <- b.rows :: !RowCounts(r.prefix, y, LockOver(y, locks')))
  {
    MoreRowsCountMore(a.rows, x, LockOver(x, locks), b.rows, y, LockOver(y, locks'));
    var there := Best(b.rows, y, LockOver(y, locks'));
    assert there.Some? ==> there.value in b.rows;
  }

  lemma RowAboveCountsAfter(table: Table, folders: seq<Folder>, from: Path, to: Path, user: string,
                            before: Account, after: Account, p: Path, r: Row)
    requires to != [] && Apart(from, to) && NothingAt(table, folders, to) && Covers(from, p)
    requires Lists(before.rows, table, user) && Lists(after.rows, MovedTable(table, from, to), user)
    requires r in before.rows && RowCounts(r.prefix, Parent(to), LockOver(Parent(to), LockedPaths(folders)))
    ensures r in after.rows && RowCounts(r.prefix, Moved(from, to, p), LockOver(Moved(from, to, p), LockedPaths(Relocated(folders, from, to))))
  {
    RowsAfter(table, from, to, user, before.rows, after.rows, p, r);
    CoversOnward(r.prefix, Parent(to), to);
    LockAfter(table, folders, from, to, p);
    var lock := LockOver(Moved(from, to, p), LockedPaths(Relocated(folders, from, to)));
    if lock.Some? && Covers(to, lock.value) {
      CoversOnward(r.prefix, to, lock.value);
    }
  }

  lemma RowsAboveCountAfter(table: Table, folders: seq<Folder>, from: Path, to: Path, user: string,
                            before: Account, after: Account, p: Path)
    requires to != [] && Apart(from, to) && NothingAt(table, folders, to) && Covers(from, p)
    requires Lists(before.rows, table, user) && Lists(after.rows, MovedTable(table, from, to), user)
    ensures var above := LockOver(Parent(to), LockedPaths(folders));
            var lock := LockOver(Moved(from, to, p), LockedPaths(Relocated(folders, from, to)));
            forall r <- before.rows :: RowCounts(r.prefix, Parent(to), above) ==>
              r in after.rows && RowCounts(r.prefix, Moved(from, to, p), lock)
  {
    var above := LockOver(Parent(to), LockedPaths(folders));
    var lock := LockOver(Moved(from, to, p), LockedPaths(Relocated(folders, from, to)));
    forall r <- before.rows | RowCounts(r.prefix, Parent(to), above)
      ensures r in after.rows && RowCounts(r.prefix, Moved(from, to, p), lock)
    {
      RowAboveCountsAfter(table, folders, from, to, user, before, after, p, r);
    }
  }

  /** A row that moves counts at the new place, under the lock that moved, as it did at the old one. */
  lemma MovedRowCounts(table: Table, from: Path, to: Path, user: string, rows: seq<Row>, rows': seq<Row>, p: Path, lock: Path, s: Row)
    requires to != [] && Apart(from, to) && Covers(from, p) && Covers(from, lock)
    requires Lists(rows, table, user) && Lists(rows', MovedTable(table, from, to), user)
    requires forall k <- table :: !Covers(to, k.1)
    requires s in rows && Covers(from, s.prefix) && Covers(s.prefix, p)
    ensures Row(Moved(from, to, s.prefix), s.scope) in rows'
    ensures RowCounts(Moved(from, to, s.prefix), Moved(from, to, p), Some(Moved(from, to, lock))) <==> RowCounts(s.prefix, p, Some(lock))
  {
    RowsAfter(table, from, to, user, rows, rows', p, Row(Moved(from, to, s.prefix), s.scope));
    MovedCovers(from, to, s.prefix, p);
    MovedCovers(from, to, s.prefix, lock);
  }

  /** A row over the place moved into, or one that moves and counts under the lock that moves with it. */
  ghost predicate RowWillCount(r: Row, from: Path, to: Path, p: Path, inner: Path)
    requires to != []
  {
    Covers(r.prefix, Parent(to)) || (Covers(from, r.prefix) && RowCounts(r.prefix, p, Some(inner)))
  }

  /** A row that counts after is one over the place moved into, or one that moved and counted. */
  lemma RowsThatWillCount(table: Table, from: Path, to: Path, user: string, rows: seq<Row>, rows': seq<Row>, p: Path, lock: Path, r: Row)
    requires to != [] && Apart(from, to) && Covers(from, p) && Covers(from, lock)
    requires Lists(rows, table, user) && Lists(rows', MovedTable(table, from, to), user)
    requires forall k <- table :: !Covers(to, k.1)
    requires r in rows' && RowCounts(r.prefix, Moved(from, to, p), Some(Moved(from, to, lock)))
    ensures exists s <- rows :: RowWillCount(s, from, to, p, lock)
  {
    RowsAfter(table, from, to, user, rows, rows', p, r);
    if !(r in rows && Covers(r.prefix, Parent(to))) {
      var s :| s in rows && Covers(from, s.prefix) && Covers(s.prefix, p) && r == Row(Moved(from, to, s.prefix), s.scope);
      MovedRowCounts(table, from, to, user, rows, rows', p, lock, s);
    }
  }

  lemma CountsThen(table: Table, folders: seq<Folder>, from: Path, to: Path, user: string, before: Account, after: Account,
                   p: Path, inner: Path, s: Row)
    requires to != [] && Apart(from, to) && NothingAt(table, folders, to) && Covers(from, p) && Covers(from, inner)
    requires Lists(before.rows, table, user) && Lists(after.rows, MovedTable(table, from, to), user)
    requires LockOver(Parent(to), LockedPaths(folders)).None?
    requires LockOver(Moved(from, to, p), LockedPaths(Relocated(folders, from, to))) == Some(Moved(from, to, inner))
    requires s in before.rows && RowWillCount(s, from, to, p, inner)
    ensures exists r <- after.rows :: RowCounts(r.prefix, Moved(from, to, p), Some(Moved(from, to, inner)))
  {
    if Covers(s.prefix, Parent(to)) {
      RowsAboveCountAfter(table, folders, from, to, user, before, after, p);
    } else {
      MovedRowCounts(table, from, to, user, before.rows, after.rows, p, inner, s);
    }
  }

  /** No row counts after, read in the rows there are before. */
  lemma NoRowWillCount(table: Table, folders: seq<Folder>, from: Path, to: Path, user: string,
                       before: Account, after: Account, p: Path)
    requires to != [] && Apart(from, to) && NothingAt(table, folders, to) && Covers(from, p)
    requires Lists(before.rows, table, user) && Lists(after.rows, MovedTable(table, from, to), user)
    requires LockOver(Parent(to), LockedPaths(folders)).None? && LockOver(p, Inside(LockedPaths(folders), from)).Some?
    ensures var inner := LockOver(p, Inside(LockedPaths(folders), from)).value;
            var lock := LockOver(Moved(from, to, p), LockedPaths(Relocated(folders, from, to)));
            (forall r <- after.rows :: !RowCounts(r.prefix, Moved(from, to, p), lock)) <==>
            (forall r <- before.rows :: !RowWillCount(r, from, to, p, inner))
  {
    var inner := LockOver(p, Inside(LockedPaths(folders), from)).value;
    LockAfter(table, folders, from, to, p);
    forall s <- before.rows | RowWillCount(s, from, to, p, inner)
      ensures exists r <- after.rows :: RowCounts(r.prefix, Moved(from, to, p), Some(Moved(from, to, inner)))
    {
      CountsThen(table, folders, from, to, user, before, after, p, inner, s);
    }
    forall r <- after.rows | RowCounts(r.prefix, Moved(from, to, p), Some(Moved(from, to, inner)))
      ensures exists s <- before.rows :: RowWillCount(s, from, to, p, inner)
    {
      RowsThatWillCount(table, from, to, user, before.rows, after.rows, p, inner, r);
    }
  }

  /**
   An app named ahead gives at its new place no more than it will once all has
   moved, except in exactly one case, seen in the tree and the rows before the
   move: the app is all the account will have there, and a lock that moves with
   the project is to hide it.
   */
  lemma NamedAheadNoMoreThanAfter(table: Table, folders: seq<Folder>, from: Path, to: Path, user: string,
                                  before: Account, after: Account, p: Path, app: string)
    requires to != [] && Apart(from, to) && NothingAt(table, folders, to) && Covers(from, p)
    requires Lists(before.rows, table, user) && Lists(after.rows, MovedTable(table, from, to), user)
    requires after.isAdmin == before.isAdmin && after.grants == before.grants
    ensures AtMost(
              ScopeOf(ExplainScope(before, Moved(from, to, p), Some(app), LockedPrefixes(folders, Some(Relocation(from, to))))),
              ScopeOf(ExplainScope(after, Moved(from, to, p), Some(app), LockedPrefixes(Relocated(folders, from, to), None))))
            <==> !AppWillBeHidden(before, from, to, p, app, LockedPrefixes(folders, None))
  {
    var q, locks, done := Moved(from, to, p), LockedPaths(folders), LockedPaths(Relocated(folders, from, to));
    NamedAheadIsTheParent(table, folders, from, to, user, before, q, Some(app));
    LockAfter(table, folders, from, to, p);
    RowsAboveCountAfter(table, folders, from, to, user, before, after, p);
    RowsDecideButForApps(before, Parent(to), locks, after, q, done, app);
    if LockOver(Parent(to), locks).None? && LockOver(p, Inside(locks, from)).Some? {
      NoRowWillCount(table, folders, from, to, user, before, after, p);
    }
  }

  lemma AppAccessIsOpen(folder: Path, app: string, locks: seq<Path>)
    ensures AppScope(Account(false, [], {app}), folder, app, locks) ==
            if LockOver(folder + [app], locks).None? then Some(Viewer) else None
  {
  }

  /** That case happens, and is more than before as well: an app let into, under any locked project about to be renamed. */
  lemma NamedAheadWithMore(from: Path, to: Path, app: string)
    requires from != [] && to != [] && Apart(from, to)
    ensures var account := Account(false, [], {app});
            var folders := [Folder(from, "", 0, true, [], None)];
            && NothingAt(map[], folders, to)
            && AppScope(account, from, app, LockedPrefixes(folders, None)) == None
            && AppScope(account, to, app, LockedPrefixes(folders, Some(Relocation(from, to)))) == Some(Viewer)
            && AppScope(account, to, app, LockedPrefixes(Relocated(folders, from, to), None)) == None
  {
    var folders := [Folder(from, "", 0, true, [], None)];
    var done := LockedPaths(Relocated(folders, from, to));
    assert folders[0] in folders;
    assert from in LockedPaths(folders);
    LockArrives(folders, from, to, from);
    assert Moved(from, to, from) == to;
    NothingMovedYet(map[], folders, from, to);
    AppAccessIsOpen(from, app, LockedPaths(folders));
    AppAccessIsOpen(to, app, done);
    AppAccessIsOpen(to, app, LockedPaths(folders));
    if Covers(from, to + [app]) {
      PrefixesChain(from, to, to + [app]);
    }
  }

  // --- a tree that cannot be read ---

  /** What the permission rule is given: the tree and the move record are read apart, and either may fail. */
  function LocksAnswered(folders: Result<seq<Folder>, string>, relocation: Result<Option<Relocation>, string>): seq<Path> {
    if folders.Ok? && relocation.Ok? then LockedPrefixes(folders.value, relocation.value) else [[]]
  }

  /**
   While either cannot be read, an account has at every place, and on every app,
   just what it has for the whole site, whatever the locks are: no outage opens
   anything a lock closed.
   */
  lemma UnreadableTreeOpensNothing(account: Account, path: Path, app: Option<string>,
                                   folders: Result<seq<Folder>, string>, relocation: Result<Option<Relocation>, string>,
                                   locks: seq<Path>)
    requires folders.Err? || relocation.Err?
    ensures ExplainScope(account, path, app, LocksAnswered(folders, relocation)) == ExplainScope(account, [], None, locks)
    ensures AtMost(ScopeOf(ExplainScope(account, path, app, LocksAnswered(folders, relocation))),
                   ScopeOf(ExplainScope(account, path, app, locks)))
  {
    OutermostLock(path, [[]], []);
    ExplainSame(account, path, app, [[]], account, [], None, locks);
    WholeSiteLockedIsLeast(account, path, app, locks);
  }
}
