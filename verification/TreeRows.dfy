/**
 What each change of the project tree makes of every row of it, field by field,
 and where a link is led (src/content/store.rs).
 */
module TreeRows {
  import opened Wrappers
  import opened Text
  import opened Slug
  import opened Paths
  import opened Folders
  import opened TreeRuns
  import opened OldLinks

  // --- which aliases are left ---

  /** What is left is these of them, in this order, none of them gone, and all that are not. */
  ghost predicate Selects(before: seq<Path>, after: seq<Path>, gone: set<Path>, from: seq<nat>) {
    && |from| == |after|
    && (forall i | 0 <= i < |from| :: from[i] < |before| && after[i] == before[from[i]] && after[i] !in gone)
    && (forall i, j | 0 <= i < j < |from| :: from[i] < from[j])
    && (forall k | 0 <= k < |before| :: before[k] !in gone ==> k in from)
  }

  /** The same in the same order, but for those that are gone. */
  ghost predicate KeptInOrder(before: seq<Path>, after: seq<Path>, gone: set<Path>) {
    exists from: seq<nat> :: Selects(before, after, gone, from)
  }

  lemma {:induction false} WithoutKeepsOrder(aliases: seq<Path>, gone: set<Path>)
    ensures KeptInOrder(aliases, Without(aliases, gone), gone)
  {
    if aliases == [] {
      assert Selects([], [], gone, []);
    } else {
      var n := |aliases| - 1;
      var front, last := aliases[..n], aliases[n];
      assert aliases == front + [last];
      WithoutKeepsOrder(front, gone);
      WithoutAppend(front, last, gone);
      var from: seq<nat> :| Selects(front, Without(front, gone), gone, from);
      if last in gone {
        OneGone(front, Without(front, gone), gone, from, last);
      } else {
        OneStays(front, Without(front, gone), gone, from, last);
      }
    }
  }

  lemma OneGone(before: seq<Path>, after: seq<Path>, gone: set<Path>, from: seq<nat>, last: Path)
    requires Selects(before, after, gone, from) && last in gone
    ensures Selects(before + [last], after, gone, from)
  {
  }

  lemma OneStays(before: seq<Path>, after: seq<Path>, gone: set<Path>, from: seq<nat>, last: Path)
    requires Selects(before, after, gone, from) && last !in gone
    ensures Selects(before + [last], after + [last], gone, from + [|before|])
  {
    var more := from + [|before|];
    forall k | 0 <= k < |before| && before[k] !in gone ensures k in more {
      assert k in from;
    }
    assert more[|from|] == |before|;
  }

  // --- one more project, one setting, one project moved ---

  /** After a project is made: its own row, open and without aliases, and every other row with none there or below. */
  lemma RowsOfCreate(folders: seq<Folder>, path: Path, now: nat)
    requires path != []
    ensures var after := Created(folders, NewFolder(path, now));
            && Folder(path, path[|path| - 1], now, false, [], None) in after && |after| == |folders| + 1
            && (forall f <- folders :: exists g <- after ::
                  g == f.(renamedFrom := g.renamedFrom) && forall a :: a in g.renamedFrom <==> a in f.renamedFrom && !Covers(path, a))
  {
    var made := NewFolder(path, now);
    var all := DroppedAll(folders, path) + [made];
    SortKeepsElements(all);
    assert |SortByPath(all)| == |multiset(SortByPath(all))| == |all|;
    assert all[|folders|] == made;
    forall f <- folders
      ensures Dropped(f, path) in all && forall a :: a in Dropped(f, path).renamedFrom <==> a in f.renamedFrom && !Covers(path, a)
    {
      var i :| 0 <= i < |folders| && folders[i] == f;
      assert all[i] == Dropped(f, path);
    }
  }

  lemma {:induction false} FirstIsSet(folders: seq<Folder>, path: Path, i: nat, setting: Setting)
    requires i < |folders| && folders[i].path == path && forall k | 0 <= k < i :: folders[k].path != path
    ensures Edited(folders, path, setting) == folders[i := Set(folders[i], setting)]
  {
    if i > 0 {
      FirstIsSet(folders[1..], path, i - 1, setting);
      assert folders[i := Set(folders[i], setting)] == [folders[0]] + folders[1..][i - 1 := Set(folders[i], setting)];
    }
  }

  /** After a setting: the first row at the path with that field set, and every row else as it was. */
  lemma RowsOfSetting(folders: seq<Folder>, path: Path, i: nat, locked: bool, gate: Option<string>)
    requires i < |folders| && folders[i].path == path && forall k | 0 <= k < i :: folders[k].path != path
    ensures Edited(folders, path, Lock(locked)) == folders[i := folders[i].(locked := locked)]
    ensures Edited(folders, path, Gate(gate)) == folders[i := folders[i].(gate := gate)]
  {
    FirstIsSet(folders, path, i, Lock(locked));
    FirstIsSet(folders, path, i, Gate(gate));
  }

  /** What the row of a project moved to `to` is. */
  ghost predicate HasMoved(f: Folder, g: Folder, from: Path, to: Path)
    requires to != []
  {
    g == f.(path := to, name := to[|to| - 1], renamedFrom := g.renamedFrom)
  }

  /** What any other row is: moved along if it was below, and without the aliases that are places now. */
  ghost predicate MovedAlong(f: Folder, g: Folder, from: Path, to: Path, live: set<Path>) {
    && g == f.(path := g.path, renamedFrom := g.renamedFrom)
    && g.path == (if Covers(from, f.path) then to + f.path[|from|..] else f.path)
    && KeptInOrder(f.renamedFrom, g.renamedFrom, set a <- f.renamedFrom | Covers(to, a) && a in live)
  }

  lemma TakenAre(folders: seq<Folder>, from: Path, to: Path)
    requires to != []
    ensures forall a :: a in Taken(RehomedAll(folders, from, to), to) <==> Covers(to, a) && a in Live(Relocated(folders, from, to))
  {
    var moved := RehomedAll(folders, from, to);
    RelocatedLive(folders, from, to);
    forall f ensures Rehomed(f, from, to).path == Moved(from, to, f.path) {
      assert Moved(from, to, from) == to;
    }
    forall p | p in Live(moved) ensures p in Live(Relocated(folders, from, to)) {
      var i :| 0 <= i < |moved| && moved[i].path == p;
      assert folders[i] in folders;
    }
    forall p | p in Live(Relocated(folders, from, to)) ensures p in Live(moved) {
      var f :| f in folders && p == Moved(from, to, f.path);
      var i :| 0 <= i < |folders| && folders[i] == f;
      assert moved[i] in moved;
    }
  }

  lemma KeptByEither(aliases: seq<Path>, taken: set<Path>, gone: set<Path>)
    requires forall a <- aliases :: a in taken <==> a in gone
    ensures Without(aliases, taken) == Without(aliases, gone)
  {
    if aliases != [] {
      KeptByEither(aliases[1..], taken, gone);
    }
  }

  /**
   After a move: one row for each there was. The project's own has its new path and
   name and the place it left for newest alias; the rows below have moved along;
   no row but its own has an alias left that is a place at or under the new one; and
   nothing else of any row is different.
   */
  lemma RowsOfMove(folders: seq<Folder>, f: Folder, from: Path, to: Path) returns (g: Folder)
    requires to != [] && f in folders && forall p <- Live(folders) :: !Covers(to, p)
    ensures g in Relocated(folders, from, to) && |Relocated(folders, from, to)| == |folders|
    ensures if f.path == from then
              HasMoved(f, g, from, to) && g.renamedFrom == Remembered(f.renamedFrom, from, to)
            else MovedAlong(f, g, from, to, Live(Relocated(folders, from, to)))
  {
    RelocatedElements(folders, from, to);
    g := Arrived(folders, f, from, to);
    if f.path != from {
      var taken := Taken(RehomedAll(folders, from, to), to);
      var gone := set a <- f.renamedFrom | Covers(to, a) && a in Live(Relocated(folders, from, to));
      TakenAre(folders, from, to);
      KeptByEither(f.renamedFrom, taken, gone);
      WithoutKeepsOrder(f.renamedFrom, gone);
      assert f.path in Live(folders) && g.path != to;
    }
  }

  // --- where a link is led ---

  /** Row `k` has alias `i` over the place, the newest it has, and no row before it has one. */
  ghost predicate LeadsBy(folders: seq<Folder>, path: Path, k: int, i: int) {
    && 0 <= k < |folders| && NewestOver(folders[k].renamedFrom, path, i)
    && forall j | 0 <= j < k :: !Over(folders[j], path)
  }

  lemma {:induction false} FirstHitLeads(folders: seq<Folder>, path: Path, k: int, i: int)
    ensures LeadsBy(folders, path, k, i) ==>
              FirstHit(folders, path) == Some(folders[k].path + path[|folders[k].renamedFrom[i]|..])
  {
    if folders != [] {
      NewestAliasAnswers(folders[0].renamedFrom, folders[0].path, path, i);
      FirstHitLeads(folders[1..], path, k - 1, i);
      if LeadsBy(folders, path, k, i) && k > 0 {
        assert !Over(folders[0], path);
        assert LeadsBy(folders[1..], path, k - 1, i);
      }
    }
  }

  lemma {:induction false} NoneLeads(folders: seq<Folder>, path: Path)
    ensures FirstHit(folders, path).None? <==> forall f <- folders :: !Over(f, path)
  {
    if folders != [] {
      NoneLeads(folders[1..], path);
      assert AliasHit(folders[0].renamedFrom, folders[0].path, path).None? <==> !Over(folders[0], path);
      assert folders == [folders[0]] + folders[1..];
    }
  }

  /**
   A place that is a project is led nowhere; any other by the first row with an alias
   over it, the newest it has: to the same place under that project; and nowhere
   where no row has one.
   */
  lemma LinksLead(folders: seq<Folder>, path: Path, k: int, i: int)
    ensures path in Live(folders) ==> RenamedPath(folders, path) == None
    ensures path !in Live(folders) && LeadsBy(folders, path, k, i) ==>
              RenamedPath(folders, path) == Some(folders[k].path + path[|folders[k].renamedFrom[i]|..])
    ensures path !in Live(folders) ==> (RenamedPath(folders, path) == None <==> forall f <- folders, a <- f.renamedFrom :: !Covers(a, path))
  {
    FirstHitLeads(folders, path, k, i);
    NoneLeads(folders, path);
    assert (forall f <- folders :: !Over(f, path)) <==> forall f <- folders, a <- f.renamedFrom :: !Covers(a, path);
  }
}
