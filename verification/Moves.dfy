/**
 What moving a project does to access: the access rows, the locks and the
 settings all follow the tree, before, between and after the steps of the move
 (src/accounts/users.rs, src/content/store.rs, src/platform/projects.rs).
 */
module Moves {
  import opened Wrappers
  import opened Paths
  import opened Folders
  import opened Scopes
  import opened Gates
  import TreeRuns

  /** The access rows of every account: one scope at most for an account at a place. */
  type Table = map<(string, Path), Scope>

  /** The rows at `from` or below, at their new places. */
  function Carried(table: Table, from: Path, to: Path): Table
    requires Apart(from, to)
  {
    var places := set k <- table | Covers(from, k.1) :: (k.0, Moved(from, to, k.1));
    assert forall d <- places :: (d.0, Moved(to, from, d.1)) in table by { CarriedBack(table, from, to); }
    map d <- places :: table[(d.0, Moved(to, from, d.1))]
  }

  lemma CarriedBack(table: Table, from: Path, to: Path)
    ensures forall k <- table | Covers(from, k.1) :: (k.0, Moved(to, from, Moved(from, to, k.1))) == k
  {
    forall k <- table | Covers(from, k.1) ensures (k.0, Moved(to, from, Moved(from, to, k.1))) == k {
      MovedBack(from, to, k.1);
    }
  }

  function MovedTable(table: Table, from: Path, to: Path): Table
    requires Apart(from, to)
  {
    (map k <- table | !Covers(from, k.1) :: table[k]) + Carried(table, from, to)
  }

  class ScopeTable {
    var rows: Table

    constructor ()
      ensures rows == map[]
    {
      rows := map[];
    }

    /**
     Rows at and under `from` go with the project, all at once, each over any row
     it meets; the answer is their number.
     */
    method MoveScopeTree(from: Path, to: Path) returns (moved: nat)
      requires Apart(from, to)
      modifies this
      ensures moved == |set k <- old(rows) | Covers(from, k.1)|
      ensures forall k <- old(rows) | Covers(from, k.1) ::
                var k' := (k.0, Moved(from, to, k.1));
                k' in rows && rows[k'] == old(rows)[k]
      ensures forall k <- old(rows) | !Covers(from, k.1) && !Covers(to, k.1) :: k in rows && rows[k] == old(rows)[k]
      ensures forall k <- rows :: !Covers(from, k.1)
      ensures forall k <- rows :: k in old(rows) || exists k0 <- old(rows) :: Covers(from, k0.1) && k == (k0.0, Moved(from, to, k0.1))
      ensures rows == MovedTable(old(rows), from, to)
    {
      moved := |set k <- rows | Covers(from, k.1)|;
      MovedTableRows(rows, from, to);
      rows := MovedTable(rows, from, to);
    }
  }

  lemma MovedTableRows(table: Table, from: Path, to: Path)
    requires Apart(from, to)
    ensures var after := MovedTable(table, from, to);
            && (forall k <- table | Covers(from, k.1) ::
                  var k' := (k.0, Moved(from, to, k.1)); k' in after && after[k'] == table[k])
            && (forall k <- table | !Covers(from, k.1) && !Covers(to, k.1) :: k in after && after[k] == table[k])
            && (forall k <- after ::
                  || (k in table && after[k] == table[k] && !Covers(from, k.1))
                  || exists k0 <- table :: Covers(from, k0.1) && k == (k0.0, Moved(from, to, k0.1)) && after[k] == table[k0])
            && (forall k <- after :: !Covers(from, k.1))
  {
    CarriedBack(table, from, to);
    var carried := Carried(table, from, to);
    forall k <- carried ensures !Covers(from, k.1) && Covers(to, k.1) {
      PrefixesApart(from, to, k.1);
    }
    forall k <- carried
      ensures exists k0 <- table :: Covers(from, k0.1) && k == (k0.0, Moved(from, to, k0.1)) && carried[k] == table[k0]
    {
      var k0 :| k0 in table && Covers(from, k0.1) && k == (k0.0, Moved(from, to, k0.1));
    }
  }

  lemma NothingToMove(table: Table, from: Path, to: Path)
    requires Apart(from, to) && forall k <- table :: !Covers(from, k.1)
    ensures MovedTable(table, from, to) == table
  {
    assert Carried(table, from, to) == map[];
  }

  /** Running the step again finds nothing to move. */
  lemma MovingTwiceIsMovingOnce(table: Table, from: Path, to: Path)
    requires Apart(from, to)
    ensures MovedTable(MovedTable(table, from, to), from, to) == MovedTable(table, from, to)
  {
    MovedTableRows(table, from, to);
    NothingToMove(MovedTable(table, from, to), from, to);
  }

  /** `rows` lists one account's rows in the table, in any order: what `scopes_for` answers. */
  ghost predicate Lists(rows: seq<Row>, table: Table, user: string) {
    forall r: Row :: r in rows <==> (user, r.prefix) in table && table[(user, r.prefix)] == r.scope
  }

  ghost predicate NothingAt(table: Table, folders: seq<Folder>, to: Path) {
    && (forall k <- table :: !Covers(to, k.1))
    && (forall p <- Live(folders) :: !Covers(to, p))
  }

  // --- two sets of rows and locks that differ by a renaming ---

  ghost predicate RowsFollow(rows: seq<Row>, rows': seq<Row>, from: Path, to: Path) {
    && (forall r <- rows :: Row(Swapped(from, to, r.prefix), r.scope) in rows')
    && (forall r' <- rows' :: exists r <- rows :: r' == Row(Swapped(from, to, r.prefix), r.scope))
  }

  ghost predicate PlacesFollow(places: seq<Path>, places': seq<Path>, from: Path, to: Path) {
    && (forall p <- places :: Swapped(from, to, p) in places')
    && (forall p' <- places' :: exists p <- places :: p' == Swapped(from, to, p))
  }

  function SwappedOption(from: Path, to: Path, p: Option<Path>): Option<Path> {
    if p.Some? then Some(Swapped(from, to, p.value)) else None
  }

  function SwappedAccess(from: Path, to: Path, access: Option<Access>): Option<Access> {
    if access.Some? && access.value.source.AtRow? then
      Some(access.value.(source := AtRow(Swapped(from, to, access.value.source.prefix))))
    else access
  }

  lemma LockFollows(path: Path, locks: seq<Path>, locks': seq<Path>, from: Path, to: Path)
    requires Siblings(from, to) && PlacesFollow(locks, locks', from, to)
    ensures LockOver(Swapped(from, to, path), locks') == SwappedOption(from, to, LockOver(path, locks))
  {
    var path' := Swapped(from, to, path);
    var lock := LockOver(path, locks);
    forall l' <- locks' | Covers(l', path') ensures exists l <- locks :: l' == Swapped(from, to, l) && Covers(l, path) {
      var l :| l in locks && l' == Swapped(from, to, l);
      SwappedKeepsCovers(from, to, l, path);
    }
    if lock.Some? {
      OutermostLock(path, locks, lock.value);
      var lock' := Swapped(from, to, lock.value);
      SwappedKeepsCovers(from, to, lock.value, path);
      forall l' <- locks' | Covers(l', path') ensures Covers(lock', l') {
        var l :| l in locks && l' == Swapped(from, to, l) && Covers(l, path);
        SwappedKeepsCovers(from, to, lock.value, l);
      }
      OutermostLock(path', locks', lock');
    }
  }

  lemma RowCountsFollows(prefix: Path, path: Path, lock: Option<Path>, from: Path, to: Path)
    requires Siblings(from, to)
    ensures RowCounts(Swapped(from, to, prefix), Swapped(from, to, path), SwappedOption(from, to, lock))
            <==> RowCounts(prefix, path, lock)
    ensures |Swapped(from, to, prefix)| == |prefix|
  {
    SwappedKeepsCovers(from, to, prefix, path);
    SwappedSegments(from, to, prefix);
    if lock.Some? {
      SwappedKeepsCovers(from, to, prefix, lock.value);
    }
  }

  lemma BestFollows(rows: seq<Row>, rows': seq<Row>, path: Path, lock: Option<Path>, from: Path, to: Path)
    requires Siblings(from, to) && RowsFollow(rows, rows', from, to)
    ensures var best := Best(rows, path, lock);
            Best(rows', Swapped(from, to, path), SwappedOption(from, to, lock)) ==
            if best.Some? then Some(Row(Swapped(from, to, best.value.prefix), best.value.scope)) else None
  {
    var path', lock' := Swapped(from, to, path), SwappedOption(from, to, lock);
    var best := Best(rows, path, lock);
    forall r <- rows ensures RowCounts(Swapped(from, to, r.prefix), path', lock') <==> RowCounts(r.prefix, path, lock) {
      RowCountsFollows(r.prefix, path, lock, from, to);
    }
    if best.Some? {
      var best' := Row(Swapped(from, to, best.value.prefix), best.value.scope);
      forall r' <- rows' | RowCounts(r'.prefix, path', lock') ensures !Beats(r', best') {
        var r :| r in rows && r' == Row(Swapped(from, to, r.prefix), r.scope);
        RowCountsFollows(r.prefix, path, lock, from, to);
        RowCountsFollows(best.value.prefix, path, lock, from, to);
      }
      BestIsUnique(rows', path', lock', best');
    }
  }

  /** Access read through a renaming is access, renamed. */
  lemma ExplainFollows(a: Account, a': Account, path: Path, app: Option<string>,
                       locks: seq<Path>, locks': seq<Path>, from: Path, to: Path)
    requires Siblings(from, to)
    requires a'.isAdmin == a.isAdmin && a'.grants == a.grants
    requires RowsFollow(a.rows, a'.rows, from, to) && PlacesFollow(locks, locks', from, to)
    ensures ExplainScope(a', Swapped(from, to, path), app, locks') == SwappedAccess(from, to, ExplainScope(a, path, app, locks))
  {
    LockFollows(path, locks, locks', from, to);
    BestFollows(a.rows, a'.rows, path, LockOver(path, locks), from, to);
  }

  // --- a rename in place ---

  lemma TableRowsFollow(table: Table, folders: seq<Folder>, user: string, from: Path, to: Path, rows: seq<Row>, rows': seq<Row>)
    requires Siblings(from, to) && Apart(from, to) && NothingAt(table, folders, to)
    requires Lists(rows, table, user) && Lists(rows', MovedTable(table, from, to), user)
    ensures RowsFollow(rows, rows', from, to)
  {
    MovedTableRows(table, from, to);
    forall r <- rows ensures Row(Swapped(from, to, r.prefix), r.scope) in rows' {
      assert (user, r.prefix) in table;
      SwappedIsMoved(from, to, r.prefix);
      if !Covers(from, r.prefix) {
        assert Moved(from, to, r.prefix) == r.prefix;
      }
    }
    forall r' <- rows' ensures exists r <- rows :: r' == Row(Swapped(from, to, r.prefix), r.scope) {
      var k := (user, r'.prefix);
      if k in table && MovedTable(table, from, to)[k] == table[k] && !Covers(from, k.1) {
        assert r' in rows;
      } else {
        var k0 :| k0 in table && Covers(from, k0.1) && k == (k0.0, Moved(from, to, k0.1)) && table[k0] == r'.scope;
        assert Row(k0.1, table[k0]) in rows;
        SwappedIsMoved(from, to, k0.1);
      }
    }
  }

  lemma LocksFollow(table: Table, folders: seq<Folder>, from: Path, to: Path)
    requires Siblings(from, to) && NothingAt(table, folders, to)
    ensures PlacesFollow(LockedPaths(folders), LockedPaths(Relocated(folders, from, to)), from, to)
  {
    RelocatedLocks(folders, from, to);
    forall p <- LockedPaths(folders) ensures Swapped(from, to, p) == Moved(from, to, p) {
      assert p in Live(folders);
      SwappedIsMoved(from, to, p);
    }
  }

  lemma LockArrives(folders: seq<Folder>, from: Path, to: Path, p: Path)
    requires to != [] && p in LockedPaths(folders)
    ensures Moved(from, to, p) in LockedPaths(Relocated(folders, from, to))
  {
    RelocatedElements(folders, from, to);
    assert Moved(from, to, from) == to;
    var f :| f in folders && f.locked && f.path == p;
    assert Arrived(folders, f, from, to) in Relocated(folders, from, to);
  }

  lemma LockCameFrom(folders: seq<Folder>, from: Path, to: Path, p': Path)
    requires to != [] && p' in LockedPaths(Relocated(folders, from, to))
    ensures exists p <- LockedPaths(folders) :: p' == Moved(from, to, p)
  {
    RelocatedElements(folders, from, to);
    assert Moved(from, to, from) == to;
    var g :| g in Relocated(folders, from, to) && g.locked && g.path == p';
    var f :| f in folders && g == Arrived(folders, f, from, to);
    assert f.path in LockedPaths(folders);
  }

  /** Locks move with the projects they are on. */
  lemma RelocatedLocks(folders: seq<Folder>, from: Path, to: Path)
    requires to != []
    ensures forall p <- LockedPaths(folders) :: Moved(from, to, p) in LockedPaths(Relocated(folders, from, to))
    ensures forall p' <- LockedPaths(Relocated(folders, from, to)) ::
              exists p <- LockedPaths(folders) :: p' == Moved(from, to, p)
  {
    forall p <- LockedPaths(folders) ensures Moved(from, to, p) in LockedPaths(Relocated(folders, from, to)) {
      LockArrives(folders, from, to, p);
    }
    forall p' <- LockedPaths(Relocated(folders, from, to)) ensures exists p <- LockedPaths(folders) :: p' == Moved(from, to, p) {
      LockCameFrom(folders, from, to, p');
    }
  }

  /**
   Renaming a project in place changes nobody's access: for every account,
   every place and every app, what held at the old place holds at the new one,
   for the same reason, with the row it comes from renamed along. A place under
   the new name before, where nothing was, trades with the old name after.
   */
  lemma RenameKeepsAccess(table: Table, folders: seq<Folder>, from: Path, to: Path, user: string,
                          before: Account, after: Account, path: Path, app: Option<string>)
    requires Siblings(from, to) && Apart(from, to) && NothingAt(table, folders, to)
    requires Lists(before.rows, table, user) && Lists(after.rows, MovedTable(table, from, to), user)
    requires after.isAdmin == before.isAdmin && after.grants == before.grants
    ensures ExplainScope(after, Swapped(from, to, path), app, LockedPrefixes(Relocated(folders, from, to), None)) ==
            SwappedAccess(from, to, ExplainScope(before, path, app, LockedPrefixes(folders, None)))
    ensures !Covers(to, path) ==> Swapped(from, to, path) == Moved(from, to, path)
  {
    TableRowsFollow(table, folders, user, from, to, before.rows, after.rows);
    LocksFollow(table, folders, from, to);
    ExplainFollows(before, after, path, app, LockedPaths(folders), LockedPaths(Relocated(folders, from, to)), from, to);
  }

  // --- general access through a rename ---

  /** The tree says at a place what the old one said at the place it was. */
  ghost predicate SaysTheSame(folders: seq<Folder>, folders': seq<Folder>, p: Path, p': Path) {
    && (Find(folders', p').None? <==> Find(folders, p).None?)
    && (IsLocked(folders', p') <==> IsLocked(folders, p))
    && OwnGate(folders', p') == OwnGate(folders, p)
  }

  ghost predicate SettingsFollow(folders: seq<Folder>, folders': seq<Folder>, from: Path, to: Path) {
    forall p: Path :: FollowsAt(folders, folders', from, to, p)
  }

  ghost predicate FollowsAt(folders: seq<Folder>, folders': seq<Folder>, from: Path, to: Path, p: Path) {
    SaysTheSame(folders, folders', p, Swapped(from, to, p))
  }

  /** With no path twice, the row found at a place is the row there. */
  lemma {:induction false} FindIs(folders: seq<Folder>, f: Folder)
    requires TreeRuns.DistinctPaths(folders) && f in folders
    ensures Find(folders, f.path) == Some(f)
  {
    if folders[0] != f {
      var i :| 0 < i < |folders| && folders[i] == f;
      assert f in folders[1..];
      FindIs(folders[1..], f);
    }
  }

  lemma FoundSaysTheSame(folders: seq<Folder>, folders': seq<Folder>, f: Folder, g: Folder)
    requires TreeRuns.DistinctPaths(folders) && TreeRuns.DistinctPaths(folders')
    requires f in folders && g in folders' && g.locked == f.locked && g.gate == f.gate
    ensures SaysTheSame(folders, folders', f.path, g.path)
  {
    FindIs(folders, f);
    FindIs(folders', g);
  }

  lemma RelocatedSettings(folders: seq<Folder>, from: Path, to: Path)
    requires TreeRuns.WellFormed(folders) && TreeRuns.MayRelocate(folders, from, to) && Siblings(from, to)
    requires forall p <- Live(folders) :: !Covers(to, p)
    ensures SettingsFollow(folders, Relocated(folders, from, to), from, to)
  {
    var after := Relocated(folders, from, to);
    TreeRuns.RelocatedSorted(folders, from, to);
    TreeRuns.AscendingDistinct(folders);
    TreeRuns.AscendingDistinct(after);
    RelocatedElements(folders, from, to);
    RelocatedLive(folders, from, to);
    forall p: Path ensures FollowsAt(folders, after, from, to, p) {
      if p in Live(folders) {
        var f :| f in folders && f.path == p;
        var g := Arrived(folders, f, from, to);
        ArrivedPlace(folders, f, from, to);
        FoundSaysTheSame(folders, after, f, g);
      } else {
        VacantFollows(Live(folders), Live(after), from, to, p);
      }
    }
  }

  lemma ArrivedPlace(folders: seq<Folder>, f: Folder, from: Path, to: Path)
    requires to != [] && !Covers(to, f.path)
    ensures var g := Arrived(folders, f, from, to);
            g.path == Swapped(from, to, f.path) && g.locked == f.locked && g.gate == f.gate
  {
    assert Moved(from, to, from) == to;
  }

  lemma VacantFollows(live: set<Path>, live': set<Path>, from: Path, to: Path, p: Path)
    requires Siblings(from, to) && forall q <- live :: !Covers(to, q)
    requires live' == set q <- live :: Moved(from, to, q)
    requires p !in live
    ensures Swapped(from, to, p) !in live'
  {
    if Swapped(from, to, p) in live' {
      var q :| q in live && Swapped(from, to, p) == Moved(from, to, q);
      SwappedIsMoved(from, to, q);
      SwappedTwice(from, to, p);
      SwappedTwice(from, to, q);
    }
  }

  lemma SwappedPrefix(from: Path, to: Path, p: Path, d: nat)
    requires Siblings(from, to) && d <= |p|
    ensures |Swapped(from, to, p)| == |p| && Swapped(from, to, p)[..d] == Swapped(from, to, p[..d])
  {
    SwappedKeepsCovers(from, to, p[..d], p);
    SwappedSegments(from, to, p);
    SwappedSegments(from, to, p[..d]);
  }

  lemma SwappedParent(from: Path, to: Path, project: Path)
    requires Siblings(from, to)
    ensures Swapped(from, to, project) == [] <==> project == []
    ensures project != [] ==> Parent(Swapped(from, to, project)) == Swapped(from, to, Parent(project))
  {
    SwappedPrefix(from, to, project, 0);
    if project != [] {
      SwappedPrefix(from, to, project, |project| - 1);
    }
  }

  lemma {:induction false} LockedFollows(folders: seq<Folder>, folders': seq<Folder>, from: Path, to: Path, project: Path)
    requires Siblings(from, to) && SettingsFollow(folders, folders', from, to)
    ensures LockedBy(folders', Swapped(from, to, project)) == SwappedOption(from, to, LockedBy(folders, project))
  {
    SwappedParent(from, to, project);
    if project != [] {
      var place := Swapped(from, to, project);
      assert FollowsAt(folders, folders', from, to, project);
      assert IsLocked(folders', place) <==> IsLocked(folders, project);
      LockedFollows(folders, folders', from, to, Parent(project));
    }
  }

  function SwappedSource(from: Path, to: Path, source: GateSource): GateSource {
    if source.Project? then Project(Swapped(from, to, source.path)) else source
  }

  lemma {:induction false} NearestFollows(folders: seq<Folder>, folders': seq<Folder>, from: Path, to: Path, project: Path, default: string)
    requires Siblings(from, to) && SettingsFollow(folders, folders', from, to)
    ensures var (gate, source) := NearestGate(folders, project, default);
            NearestGate(folders', Swapped(from, to, project), default) == (gate, SwappedSource(from, to, source))
  {
    SwappedParent(from, to, project);
    if project != [] {
      var place := Swapped(from, to, project);
      assert FollowsAt(folders, folders', from, to, project);
      assert OwnGate(folders', place) == OwnGate(folders, project);
      NearestFollows(folders, folders', from, to, Parent(project), default);
    }
  }

  /**
   A rename in place changes no app's general access either: for every app and
   every path within it, the same gate, from the same setting, under the same
   lock, with the project and the lock named by their new places.
   */
  lemma RenameKeepsGates(folders: seq<Folder>, from: Path, to: Path, meta: AppMeta, default: string, within: string)
    requires TreeRuns.WellFormed(folders) && TreeRuns.MayRelocate(folders, from, to) && Siblings(from, to)
    ensures var before := ResolveGate(meta, folders, default, within);
            ResolveGate(meta.(project := Swapped(from, to, meta.project)), Relocated(folders, from, to), default, within) ==
            EffectiveGate(before.gate, SwappedSource(from, to, before.source), SwappedOption(from, to, before.lockedBy))
    ensures !Covers(to, meta.project) ==> Swapped(from, to, meta.project) == Moved(from, to, meta.project)
  {
    forall p <- Live(folders) ensures !Covers(to, p) {
      if Covers(to, p) {
        TreeRuns.AncestorsLive(Live(folders), p, to);
      }
    }
    RelocatedSettings(folders, from, to);
    ResolveFollows(folders, Relocated(folders, from, to), from, to, meta, default, within);
  }

  lemma RowAtPath(folders: seq<Folder>, path: Path)
    requires TreeRuns.DistinctPaths(folders)
    ensures IsLocked(folders, path) <==> path in LockedPaths(folders)
  {
    var row := Find(folders, path);
    forall f <- folders | f.path == path ensures row == Some(f) {
      var i :| 0 <= i < |folders| && folders[i] == f;
      var j :| 0 <= j < |folders| && folders[j] == row.value;
      assert i == j;
    }
  }

  /** Gates and permissions are closed by one and the same lock: the outermost locked project over the place. */
  lemma OneLockForBoth(folders: seq<Folder>, project: Path)
    requires TreeRuns.DistinctPaths(folders) && TreeRuns.ValidPaths(folders)
    ensures LockedBy(folders, project) == LockOver(project, LockedPaths(folders))
  {
    LockedByIsOutermost(folders, project);
    forall p ensures IsLocked(folders, p) <==> p in LockedPaths(folders) {
      RowAtPath(folders, p);
    }
    var lock := LockedBy(folders, project);
    if lock.Some? {
      OutermostLock(project, LockedPaths(folders), lock.value);
    }
  }

  lemma LiveFollows(folders: seq<Folder>, folders': seq<Folder>, from: Path, to: Path, project: Path)
    requires Siblings(from, to) && SettingsFollow(folders, folders', from, to)
    ensures Swapped(from, to, project) != [] && Swapped(from, to, project) !in Live(folders')
            <==> project != [] && project !in Live(folders)
  {
    SwappedParent(from, to, project);
    assert FollowsAt(folders, folders', from, to, project);
  }

  lemma LockedResolves(folders: seq<Folder>, folders': seq<Folder>, from: Path, to: Path, meta: AppMeta, default: string, within: string)
    requires Siblings(from, to) && SettingsFollow(folders, folders', from, to)
    requires LockedBy(folders, meta.project).Some?
    ensures var before := Resolved(meta, folders, default, within);
            Resolved(meta.(project := Swapped(from, to, meta.project)), folders', default, within) ==
            EffectiveGate(before.gate, SwappedSource(from, to, before.source), SwappedOption(from, to, before.lockedBy))
  {
    LiveFollows(folders, folders', from, to, meta.project);
    LockedFollows(folders, folders', from, to, meta.project);
    NearestFollows(folders, folders', from, to, LockedBy(folders, meta.project).value, default);
  }

  lemma UnlockedResolves(folders: seq<Folder>, folders': seq<Folder>, from: Path, to: Path, meta: AppMeta, default: string, within: string)
    requires Siblings(from, to) && SettingsFollow(folders, folders', from, to)
    requires LockedBy(folders, meta.project).None?
    ensures var before := Resolved(meta, folders, default, within);
            Resolved(meta.(project := Swapped(from, to, meta.project)), folders', default, within) ==
            EffectiveGate(before.gate, SwappedSource(from, to, before.source), SwappedOption(from, to, before.lockedBy))
  {
    LiveFollows(folders, folders', from, to, meta.project);
    LockedFollows(folders, folders', from, to, meta.project);
    NearestFollows(folders, folders', from, to, meta.project, default);
  }

  lemma ResolveFollows(folders: seq<Folder>, folders': seq<Folder>, from: Path, to: Path, meta: AppMeta, default: string, within: string)
    requires Siblings(from, to) && SettingsFollow(folders, folders', from, to)
    ensures var before := ResolveGate(meta, folders, default, within);
            ResolveGate(meta.(project := Swapped(from, to, meta.project)), folders', default, within) ==
            EffectiveGate(before.gate, SwappedSource(from, to, before.source), SwappedOption(from, to, before.lockedBy))
  {
    ResolveGateIs(meta, folders, default, within);
    ResolveGateIs(meta.(project := Swapped(from, to, meta.project)), folders', default, within);
    if LockedBy(folders, meta.project).Some? {
      LockedResolves(folders, folders', from, to, meta, default, within);
    } else {
      UnlockedResolves(folders, folders', from, to, meta, default, within);
    }
  }
}
