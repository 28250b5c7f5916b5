/**
 Whole runs of changes to the project tree: what every reachable tree keeps.
 Where old links lead is said in `OldLinks`.
 */
module TreeRuns {
  import opened Wrappers
  import opened Text
  import opened Slug
  import opened Paths
  import opened Folders
  import opened ProjectTree

  /** One admin's change, with what the caller saw where the tree cannot tell. */
  datatype Edit =
    | Create(parent: Path, name: string, appThere: bool, now: nat)
    | Relocate(from: Path, to: Path)
    | Remove(path: Path)
    | Configure(path: Path, setting: Setting)

  predicate MayCreate(folders: seq<Folder>, parent: Path, name: string, appThere: bool) {
    && ValidSegment(name) && ValidPath(parent) && !appThere
    && (parent == [] || parent in Live(folders))
    && parent + [name] !in Live(folders)
  }

  /** What `relocate_held` and its callers check (src/platform/projects.rs). */
  predicate MayRelocate(folders: seq<Folder>, from: Path, to: Path) {
    && from in Live(folders)
    && to != [] && ValidPath(to) && to !in Live(folders)
    && !Covers(from, to)
    && (Parent(to) == [] || Parent(to) in Live(folders))
  }

  /** Nothing sits below: `remove_held`'s check. */
  predicate MayRemove(folders: seq<Folder>, path: Path) {
    forall p <- Live(folders) :: Covers(path, p) ==> p == path
  }

  function Apply(folders: seq<Folder>, edit: Edit): seq<Folder> {
    match edit
    case Create(parent, name, appThere, now) =>
      if MayCreate(folders, parent, name, appThere) then Created(folders, NewFolder(parent + [name], now)) else folders
    case Relocate(from, to) =>
      if MayRelocate(folders, from, to) then Relocated(folders, from, to) else folders
    case Remove(path) =>
      if MayRemove(folders, path) then RemovedFolder(folders, path) else folders
    case Configure(path, setting) => Edited(folders, path, setting)
  }

  function Run(edits: seq<Edit>): seq<Folder> {
    if edits == [] then [] else Apply(Run(edits[..|edits| - 1]), edits[|edits| - 1])
  }

  /** The in-place tree goes through the same states. */
  method Perform(tree: Tree, edit: Edit)
    modifies tree
    ensures tree.folders == Apply(old(tree.folders), edit)
  {
    match edit
    case Create(parent, name, appThere, now) =>
      var _ := tree.CreateFolder(parent, name, appThere, now);
    case Relocate(from, to) =>
      if MayRelocate(tree.folders, from, to) {
        var _ := tree.RelocateFolder(from, to);
      }
    case Remove(path) =>
      if MayRemove(tree.folders, path) {
        var _ := tree.RemoveFolder(path);
      }
    case Configure(path, setting) =>
      var _ := tree.SetFirst(path, setting);
  }

  // --- what every tree keeps ---

  ghost predicate ValidPaths(folders: seq<Folder>) {
    forall f <- folders :: f.path != [] && ValidPath(f.path)
  }

  /** Every place but the top ones is inside another. */
  ghost predicate ParentClosed(live: set<Path>) {
    forall p <- live :: p != [] && (|p| > 1 ==> Parent(p) in live)
  }

  /** At most five aliases, none of them the whole site. */
  ghost predicate FewAliases(folders: seq<Folder>) {
    forall f <- folders :: |f.renamedFrom| <= 5 && [] !in f.renamedFrom
  }

  /** An alias that is a live path is strictly below the project holding it. */
  ghost predicate AliasesBelow(folders: seq<Folder>) {
    forall f <- folders, a <- f.renamedFrom :: a in Live(folders) ==> Covers(f.path, a) && a != f.path
  }

  ghost predicate WellFormed(folders: seq<Folder>) {
    && ValidPaths(folders)
    && StrictlyAscending(folders)
    && ParentClosed(Live(folders))
    && FewAliases(folders)
    && AliasesBelow(folders)
  }

  ghost predicate DistinctPaths(folders: seq<Folder>) {
    forall i, j | 0 <= i < j < |folders| :: folders[i].path != folders[j].path
  }

  lemma {:induction false} InsertedDistinct(f: Folder, folders: seq<Folder>)
    requires Ascending(folders) && DistinctPaths(folders) && f.path !in Live(folders)
    ensures DistinctPaths(Inserted(f, folders))
  {
    if folders != [] && PathLess(folders[0].path, f.path) {
      var rest := folders[1..];
      assert forall g <- rest :: g in folders;
      InsertedDistinct(f, rest);
      InsertedFrom(f, rest);
      var below := Inserted(f, rest);
      forall i | 0 <= i < |below| ensures below[i].path != folders[0].path {
        assert below[i] in below;
      }
    }
  }

  lemma InsertedFrom(f: Folder, folders: seq<Folder>)
    requires Ascending(folders)
    ensures forall g <- Inserted(f, folders) :: g == f || g in folders
  {
    var sorted := Inserted(f, folders);
    forall g <- sorted ensures g == f || g in folders {
      assert g in multiset(sorted);
      assert g in multiset(folders) + multiset{f};
    }
  }

  lemma {:induction false} SortedDistinct(folders: seq<Folder>)
    requires DistinctPaths(folders)
    ensures DistinctPaths(SortByPath(folders))
  {
    if folders != [] {
      SortedDistinct(folders[1..]);
      SortKeepsElements(folders[1..]);
      InsertedDistinct(folders[0], SortByPath(folders[1..]));
    }
  }

  /** Sorting distinct places puts each strictly before the next. */
  lemma SortedStrictly(folders: seq<Folder>)
    requires DistinctPaths(folders) && ValidPaths(folders)
    ensures StrictlyAscending(SortByPath(folders)) && ValidPaths(SortByPath(folders))
  {
    var sorted := SortByPath(folders);
    SortedDistinct(folders);
    SortKeepsElements(folders);
    forall i, j | 0 <= i < j < |sorted| ensures PathLess(sorted[i].path, sorted[j].path) {
      WrittenRoundTrip(sorted[i].path);
      WrittenRoundTrip(sorted[j].path);
      TextLessTotal(Written(sorted[i].path), Written(sorted[j].path));
    }
  }

  lemma AscendingDistinct(folders: seq<Folder>)
    requires StrictlyAscending(folders)
    ensures DistinctPaths(folders)
  {
    forall i, j | 0 <= i < j < |folders| ensures folders[i].path != folders[j].path {
      TextLessTotal(Written(folders[i].path), Written(folders[j].path));
    }
  }

  /** Every project above a project is in the tree. */
  lemma {:induction false} AncestorsLive(live: set<Path>, p: Path, above: Path)
    requires ParentClosed(live)
    requires p in live && Covers(above, p) && above != []
    ensures above in live
    decreases |p|
  {
    if above != p {
      AncestorsLive(live, Parent(p), above);
    }
  }

  lemma CreateKeeps(folders: seq<Folder>, parent: Path, name: string, now: nat)
    requires WellFormed(folders) && MayCreate(folders, parent, name, false)
    ensures WellFormed(Created(folders, NewFolder(parent + [name], now)))
  {
    var f := NewFolder(parent + [name], now);
    var all := DroppedAll(folders, f.path) + [f];
    DroppedElements(folders, f);
    DroppedDistinct(folders, f);
    SortedStrictly(all);
    SortKeepsElements(all);
    assert Parent(f.path) == parent;
    AddedKeeps(folders, f, all);
  }

  lemma AddedKeeps(folders: seq<Folder>, f: Folder, all: seq<Folder>)
    requires ParentClosed(Live(folders)) && FewAliases(folders) && AliasesBelow(folders)
    requires f.path != [] && f.renamedFrom == []
    requires |f.path| == 1 || Parent(f.path) in Live(folders)
    requires Live(all) == Live(folders) + {f.path}
    requires forall g <- all :: g == f || exists h <- folders :: g == Dropped(h, f.path)
    ensures ParentClosed(Live(all)) && FewAliases(all) && AliasesBelow(all)
  {
    forall g <- all, a <- g.renamedFrom | a in Live(all) ensures Covers(g.path, a) && a != g.path {
      var h :| h in folders && g == Dropped(h, f.path);
    }
  }

  lemma DroppedDistinct(folders: seq<Folder>, f: Folder)
    requires StrictlyAscending(folders) && ValidPaths(folders)
    requires f.path !in Live(folders) && f.path != [] && ValidPath(f.path)
    ensures DistinctPaths(DroppedAll(folders, f.path) + [f])
    ensures ValidPaths(DroppedAll(folders, f.path) + [f])
  {
    AscendingDistinct(folders);
    DroppedElements(folders, f);
    forall i | 0 <= i < |folders| ensures folders[i].path in Live(folders) {
      assert folders[i] in folders;
    }
  }

  /** The rows before sorting: the old ones with fewer aliases, and the new one. */
  lemma DroppedElements(folders: seq<Folder>, f: Folder)
    ensures var all := DroppedAll(folders, f.path) + [f];
            && Live(all) == Live(folders) + {f.path}
            && forall g <- all :: g == f || exists h <- folders :: g == Dropped(h, f.path)
  {
    var dropped := DroppedAll(folders, f.path);
    var all := dropped + [f];
    forall g <- dropped ensures exists h <- folders :: g == Dropped(h, f.path) {
      var i :| 0 <= i < |dropped| && dropped[i] == g;
      assert folders[i] in folders;
    }
    forall p | p in Live(folders) ensures p in Live(all) {
      var i :| 0 <= i < |folders| && folders[i].path == p;
      assert all[i] in all && all[i].path == p;
    }
    assert all[|folders|] in all;
  }

  /** What is moved cannot meet what is there. */
  lemma MovedDistinct(live: set<Path>, from: Path, to: Path, p: Path, q: Path)
    requires ParentClosed(live) && to != [] && to !in live
    requires p in live && q in live && p != q
    ensures Moved(from, to, p) != Moved(from, to, q)
  {
    if Covers(from, p) && Covers(from, q) {
      MovedBack(from, to, p);
      MovedBack(from, to, q);
    } else if Covers(from, p) && Moved(from, to, p) == q {
      AncestorsLive(live, q, to);
    } else if Covers(from, q) && Moved(from, to, q) == p {
      AncestorsLive(live, p, to);
    }
  }

  lemma RelocatedSorted(folders: seq<Folder>, from: Path, to: Path)
    requires WellFormed(folders) && MayRelocate(folders, from, to)
    ensures StrictlyAscending(Relocated(folders, from, to)) && ValidPaths(Relocated(folders, from, to))
  {
    var moved := RehomedAll(folders, from, to);
    var yielded := YieldedAll(moved, to, Taken(moved, to));
    AscendingDistinct(folders);
    forall i | 0 <= i < |folders| ensures yielded[i].path == Moved(from, to, folders[i].path) && folders[i] in folders {
    }
    MovedPathsDistinct(folders, yielded, from, to);
    SortedStrictly(yielded);
  }

  lemma MovedPathsDistinct(folders: seq<Folder>, moved: seq<Folder>, from: Path, to: Path)
    requires ValidPaths(folders) && DistinctPaths(folders) && ParentClosed(Live(folders))
    requires to != [] && ValidPath(to) && to !in Live(folders)
    requires |moved| == |folders|
    requires forall i | 0 <= i < |folders| :: moved[i].path == Moved(from, to, folders[i].path)
    ensures DistinctPaths(moved) && ValidPaths(moved)
  {
    forall i, j | 0 <= i < j < |moved| ensures moved[i].path != moved[j].path {
      assert folders[i] in folders && folders[j] in folders;
      MovedDistinct(Live(folders), from, to, folders[i].path, folders[j].path);
    }
    forall f <- moved ensures f.path != [] && ValidPath(f.path) {
      var i :| 0 <= i < |moved| && moved[i] == f;
      assert folders[i] in folders;
    }
  }

  /** Moving a closed set of places to a place whose parent is there keeps it closed. */
  lemma MovedClosed(live: set<Path>, from: Path, to: Path)
    requires ParentClosed(live) && to != [] && !Covers(from, to)
    requires from in live && (Parent(to) == [] || Parent(to) in live)
    ensures ParentClosed(set p <- live :: Moved(from, to, p))
  {
    var after := set p <- live :: Moved(from, to, p);
    forall q <- after ensures q != [] && (|q| > 1 ==> Parent(q) in after) {
      var p :| p in live && q == Moved(from, to, p);
      if |q| > 1 {
        if p == from {
          assert q == to;
          CoversThrough(from, Parent(to), to);
          assert Moved(from, to, Parent(to)) == Parent(to);
        } else {
          CoversThrough(from, Parent(p), p);
          assert Moved(from, to, Parent(p)) == Parent(q);
        }
      }
    }
  }

  lemma RelocatedAliases(folders: seq<Folder>, from: Path, to: Path)
    requires WellFormed(folders) && MayRelocate(folders, from, to)
    ensures FewAliases(Relocated(folders, from, to)) && AliasesBelow(Relocated(folders, from, to))
  {
    RelocatedFewAliases(folders, from, to);
    RelocatedAliasesBelow(folders, from, to);
  }

  lemma RelocatedFewAliases(folders: seq<Folder>, from: Path, to: Path)
    requires FewAliases(folders) && from != [] && to != []
    ensures FewAliases(Relocated(folders, from, to))
  {
    var after := Relocated(folders, from, to);
    RelocatedElements(folders, from, to);
    forall g <- after ensures |g.renamedFrom| <= MAX_ALIASES && [] !in g.renamedFrom {
      var f :| f in folders && g == Arrived(folders, f, from, to);
    }
  }

  lemma RelocatedAliasesBelow(folders: seq<Folder>, from: Path, to: Path)
    requires WellFormed(folders) && MayRelocate(folders, from, to)
    ensures AliasesBelow(Relocated(folders, from, to))
  {
    var after := Relocated(folders, from, to);
    var taken := Taken(RehomedAll(folders, from, to), to);
    RelocatedElements(folders, from, to);
    RelocatedLive(folders, from, to);
    forall q <- Live(folders) | Covers(from, q) ensures Moved(from, to, q) in taken {
      TakenMoved(folders, from, to, q);
    }
    forall g <- after, a <- g.renamedFrom | a in Live(after) ensures Covers(g.path, a) && a != g.path {
      var f :| f in folders && g == Arrived(folders, f, from, to);
      AliasStaysBelow(Live(folders), f, from, to, taken, a);
    }
  }

  lemma AliasStaysBelow(live: set<Path>, f: Folder, from: Path, to: Path, taken: set<Path>, a: Path)
    requires ParentClosed(live) && from in live && to != [] && to !in live
    requires f.path in live && forall b <- f.renamedFrom | b in live :: Covers(f.path, b) && b != f.path
    requires forall q <- live | Covers(from, q) :: Moved(from, to, q) in taken
    requires a in Yielded(Rehomed(f, from, to), to, taken).renamedFrom
    requires exists q <- live :: a == Moved(from, to, q)
    ensures Covers(Yielded(Rehomed(f, from, to), to, taken).path, a)
    ensures Yielded(Rehomed(f, from, to), to, taken).path != a
  {
    var q :| q in live && a == Moved(from, to, q);
    if f.path == from {
      if a == from {
        AncestorsLive(live, from, to);
      }
    } else {
      if Moved(from, to, f.path) == to {
        MovedDistinct(live, from, to, from, f.path);
      }
    }
  }

  lemma TakenMoved(folders: seq<Folder>, from: Path, to: Path, q: Path)
    requires to != [] && q in Live(folders) && Covers(from, q)
    ensures Moved(from, to, q) in Taken(RehomedAll(folders, from, to), to)
  {
    var moved := RehomedAll(folders, from, to);
    var f :| f in folders && f.path == q;
    var i :| 0 <= i < |folders| && folders[i] == f;
    assert Moved(from, to, from) == to;
    assert moved[i] in moved && moved[i].path == Moved(from, to, q);
  }

  lemma {:induction false} RemovedSorted(folders: seq<Folder>, path: Path)
    requires StrictlyAscending(folders)
    ensures StrictlyAscending(RemovedFolder(folders, path))
  {
    if folders != [] {
      var rest := RemovedFolder(folders[1..], path);
      RemovedSorted(folders[1..], path);
      forall i | 0 <= i < |rest| ensures PathLess(folders[0].path, rest[i].path) {
        assert rest[i] in rest && rest[i] in folders[1..];
      }
    }
  }

  lemma RemoveKeeps(folders: seq<Folder>, path: Path)
    requires WellFormed(folders) && MayRemove(folders, path)
    ensures WellFormed(RemovedFolder(folders, path))
  {
    RemovedSorted(folders, path);
    assert Live(RemovedFolder(folders, path)) == Live(folders) - {path};
  }

  lemma {:induction false} EditedKeepsPlaces(folders: seq<Folder>, path: Path, setting: Setting)
    ensures forall i | 0 <= i < |folders| ::
              && Edited(folders, path, setting)[i].path == folders[i].path
              && Edited(folders, path, setting)[i].renamedFrom == folders[i].renamedFrom
  {
    if folders != [] {
      EditedKeepsPlaces(folders[1..], path, setting);
    }
  }

  lemma EditedElements(folders: seq<Folder>, path: Path, setting: Setting)
    ensures Live(Edited(folders, path, setting)) == Live(folders)
    ensures forall g <- Edited(folders, path, setting) ::
              exists f <- folders :: f.path == g.path && f.renamedFrom == g.renamedFrom
  {
    var after := Edited(folders, path, setting);
    EditedKeepsPlaces(folders, path, setting);
    forall g <- after ensures exists f <- folders :: f.path == g.path && f.renamedFrom == g.renamedFrom {
      var i :| 0 <= i < |after| && after[i] == g;
      assert folders[i] in folders;
    }
    EditedLive(folders, after);
  }

  lemma EditedLive(folders: seq<Folder>, after: seq<Folder>)
    requires |after| == |folders| && forall i | 0 <= i < |folders| :: after[i].path == folders[i].path
    ensures Live(after) == Live(folders)
  {
    forall p ensures p in Live(folders) <==> p in Live(after) {
      if p in Live(folders) {
        var i :| 0 <= i < |folders| && folders[i].path == p;
        assert after[i] in after;
      }
      if p in Live(after) {
        var i :| 0 <= i < |after| && after[i].path == p;
        assert folders[i] in folders;
      }
    }
  }

  lemma EditKeeps(folders: seq<Folder>, path: Path, setting: Setting)
    requires WellFormed(folders)
    ensures WellFormed(Edited(folders, path, setting))
  {
    EditedKeepsPlaces(folders, path, setting);
    EditedElements(folders, path, setting);
  }

  lemma ApplyKeeps(folders: seq<Folder>, edit: Edit)
    requires WellFormed(folders)
    ensures WellFormed(Apply(folders, edit))
  {
    match edit
    case Create(parent, name, appThere, now) =>
      if MayCreate(folders, parent, name, appThere) {
        CreateKeeps(folders, parent, name, now);
      }
    case Relocate(from, to) =>
      if MayRelocate(folders, from, to) {
        RelocatedSorted(folders, from, to);
        MovedClosed(Live(folders), from, to);
        RelocatedLive(folders, from, to);
        RelocatedAliases(folders, from, to);
      }
    case Remove(path) =>
      if MayRemove(folders, path) {
        RemoveKeeps(folders, path);
      }
    case Configure(path, setting) =>
      EditKeeps(folders, path, setting);
  }

  /** Every reachable tree is well formed. */
  lemma {:induction false} RunsAreWellFormed(edits: seq<Edit>)
    ensures WellFormed(Run(edits))
  {
    if edits != [] {
      RunsAreWellFormed(edits[..|edits| - 1]);
      ApplyKeeps(Run(edits[..|edits| - 1]), edits[|edits| - 1]);
    }
  }
}
