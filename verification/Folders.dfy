/**
 The project tree as a value: its rows, and what each change makes of them
 (src/content/store.rs). `ProjectTree` makes the changes in place.
 */
module Folders {
  import opened Wrappers
  import opened Text
  import opened Slug
  import opened Paths

  datatype Folder = Folder(
    path: Path,
    name: string,
    createdAt: nat,
    locked: bool,
    renamedFrom: seq<Path>, // newest last
    gate: Option<string>
  )

  /** The record of a move while its steps are being taken. */
  datatype Relocation = Relocation(from: Path, to: Path)

  const MAX_ALIASES: nat := 5

  /**
   Each level's several names, in any case and with blanks around, as the one
   that is kept; any other word is no level.
   */
  function NormaliseGate(word: string): Option<string> {
    var plain := Lower(Trim(word));
    if plain == "public" then Some("public")
    else if plain in {"authenticated", "signed-in", "signed_in"} then Some("authenticated")
    else if plain in {"restricted", "granted"} then Some("restricted")
    else None
  }

  function Live(folders: seq<Folder>): set<Path> {
    set f <- folders :: f.path
  }

  // --- order by path text ---

  predicate PathLess(a: Path, b: Path) {
    TextLess(Written(a), Written(b))
  }

  predicate Ascending(folders: seq<Folder>) {
    forall i, j | 0 <= i < j < |folders| :: !PathLess(folders[j].path, folders[i].path)
  }

  /** Sorted by path, and no path twice. */
  predicate StrictlyAscending(folders: seq<Folder>) {
    forall i, j | 0 <= i < j < |folders| :: PathLess(folders[i].path, folders[j].path)
  }

  function Inserted(f: Folder, folders: seq<Folder>): (sorted: seq<Folder>)
    requires Ascending(folders)
    ensures multiset(sorted) == multiset(folders) + multiset{f}
    ensures Ascending(sorted)
  {
    if folders == [] then [f]
    else if !PathLess(folders[0].path, f.path) then
      assert Ascending([f] + folders) by { FrontAscending(f, folders); }
      [f] + folders
    else
      assert folders == [folders[0]] + folders[1..];
      var below := Inserted(f, folders[1..]);
      assert Ascending([folders[0]] + below) by { RestAscending(f, folders, below); }
      [folders[0]] + below
  }

  lemma FrontAscending(f: Folder, folders: seq<Folder>)
    requires folders != [] && Ascending(folders)
    requires !PathLess(folders[0].path, f.path)
    ensures Ascending([f] + folders)
  {
    forall j | 0 <= j < |folders| ensures !PathLess(folders[j].path, f.path) {
      TextLessTotal(Written(folders[0].path), Written(folders[j].path));
      if PathLess(folders[j].path, f.path) && folders[0].path != folders[j].path {
        if PathLess(folders[0].path, folders[j].path) {
          TextLessTransitive(Written(folders[0].path), Written(folders[j].path), Written(f.path));
        }
      }
    }
  }

  lemma RestAscending(f: Folder, folders: seq<Folder>, below: seq<Folder>)
    requires folders != [] && Ascending(folders) && Ascending(below)
    requires PathLess(folders[0].path, f.path)
    requires multiset(below) == multiset(folders[1..]) + multiset{f}
    ensures Ascending([folders[0]] + below)
  {
    forall j | 0 <= j < |below| ensures !PathLess(below[j].path, folders[0].path) {
      assert below[j] in multiset(below);
      TextLessTotal(Written(folders[0].path), Written(f.path));
    }
  }

  /** `sort_by(|a, b| a.path.cmp(&b.path))`. */
  function SortByPath(folders: seq<Folder>): (sorted: seq<Folder>)
    ensures multiset(sorted) == multiset(folders)
    ensures Ascending(sorted)
  {
    if folders == [] then [] else
    assert folders == [folders[0]] + folders[1..];
    Inserted(folders[0], SortByPath(folders[1..]))
  }

  lemma SortKeepsElements(folders: seq<Folder>)
    ensures forall f :: f in SortByPath(folders) <==> f in folders
    ensures Live(SortByPath(folders)) == Live(folders)
  {
    forall f ensures f in SortByPath(folders) <==> f in folders {
      assert f in SortByPath(folders) <==> f in multiset(SortByPath(folders));
      assert f in folders <==> f in multiset(folders);
    }
  }

  // --- aliases ---

  /** `retain(|old| !gone.contains(old))`. */
  function Without(aliases: seq<Path>, gone: set<Path>): (kept: seq<Path>)
    ensures |kept| <= |aliases|
    ensures forall a :: a in kept <==> a in aliases && a !in gone
  {
    if aliases == [] then []
    else if aliases[0] in gone then Without(aliases[1..], gone)
    else [aliases[0]] + Without(aliases[1..], gone)
  }

  lemma {:induction false} WithoutTwice(aliases: seq<Path>, gone: set<Path>, more: set<Path>)
    ensures Without(Without(aliases, gone), more) == Without(aliases, gone + more)
  {
    if aliases != [] {
      WithoutTwice(aliases[1..], gone, more);
    }
  }

  lemma {:induction false} WithoutNothing(aliases: seq<Path>)
    ensures Without(aliases, {}) == aliases
  {
    if aliases != [] {
      WithoutNothing(aliases[1..]);
    }
  }

  function AtOrUnder(aliases: seq<Path>, path: Path): set<Path> {
    set a <- aliases | Covers(path, a)
  }

  /** The aliases of a project that leaves `from` for `to`: newest last, few. */
  function Remembered(aliases: seq<Path>, from: Path, to: Path): (kept: seq<Path>)
    ensures |kept| <= MAX_ALIASES
    ensures |kept| > 0 && kept[|kept| - 1] == from
    ensures forall a <- kept :: a == from || (a in aliases && a != to)
  {
    var all := Without(aliases, {to}) + [from];
    if |all| > MAX_ALIASES then all[|all| - MAX_ALIASES..] else all
  }

  /** It is the oldest that go: what is kept is the place left and, ahead of it, the four newest there were, in order. */
  lemma NewestAreRemembered(aliases: seq<Path>, from: Path, to: Path)
    ensures var others, kept := Without(aliases, {to}), Remembered(aliases, from, to);
            var n := if |others| < 5 then |others| else 4;
            kept == others[|others| - n..] + [from]
  {
    var others := Without(aliases, {to});
    if |others| >= MAX_ALIASES {
      EndWithOneMore(others, from, |others| - (MAX_ALIASES - 1));
    } else {
      assert others[0..] == others;
    }
  }

  lemma EndWithOneMore(places: seq<Path>, last: Path, start: nat)
    requires start <= |places|
    ensures (places + [last])[start..] == places[start..] + [last]
  {
  }

  // --- the changes ---

  /** `drop_alias`: `path` is real now, so nobody answers to it or below it. */
  function Dropped(f: Folder, path: Path): Folder {
    f.(renamedFrom := Without(f.renamedFrom, AtOrUnder(f.renamedFrom, path)))
  }

  function DroppedAll(folders: seq<Folder>, path: Path): (r: seq<Folder>)
    ensures |r| == |folders|
    ensures forall i | 0 <= i < |r| :: r[i] == Dropped(folders[i], path)
  {
    seq(|folders|, i requires 0 <= i < |folders| => Dropped(folders[i], path))
  }

  function NewFolder(path: Path, now: nat): Folder
    requires path != []
  {
    Folder(path, Last(path), now, false, [], None)
  }

  function Created(folders: seq<Folder>, f: Folder): seq<Folder> {
    SortByPath(DroppedAll(folders, f.path) + [f])
  }

  /** One row when what is at `from` moves to `to`. */
  function Rehomed(f: Folder, from: Path, to: Path): Folder
    requires to != []
  {
    if f.path == from then
      f.(path := to, name := Last(to), renamedFrom := Remembered(f.renamedFrom, from, to))
    else
      f.(path := Moved(from, to, f.path))
  }

  function RehomedAll(folders: seq<Folder>, from: Path, to: Path): (r: seq<Folder>)
    requires to != []
    ensures |r| == |folders|
    ensures forall i | 0 <= i < |r| :: r[i] == Rehomed(folders[i], from, to)
  {
    seq(|folders|, i requires 0 <= i < |folders| => Rehomed(folders[i], from, to))
  }

  /** The places now taken at or under `to`. */
  function Taken(folders: seq<Folder>, to: Path): set<Path> {
    set f <- folders | Covers(to, f.path) :: f.path
  }

  /** A taken place is no alias of another project any more. */
  function Yielded(f: Folder, to: Path, taken: set<Path>): Folder {
    if f.path == to then f else f.(renamedFrom := Without(f.renamedFrom, taken))
  }

  function YieldedAll(folders: seq<Folder>, to: Path, taken: set<Path>): (r: seq<Folder>)
    ensures |r| == |folders|
    ensures forall i | 0 <= i < |r| :: r[i] == Yielded(folders[i], to, taken)
  {
    seq(|folders|, i requires 0 <= i < |folders| => Yielded(folders[i], to, taken))
  }

  function Relocated(folders: seq<Folder>, from: Path, to: Path): seq<Folder>
    requires to != []
  {
    var moved := RehomedAll(folders, from, to);
    SortByPath(YieldedAll(moved, to, Taken(moved, to)))
  }

  /** What one row of the tree has become. */
  function Arrived(folders: seq<Folder>, f: Folder, from: Path, to: Path): Folder
    requires to != []
  {
    Yielded(Rehomed(f, from, to), to, Taken(RehomedAll(folders, from, to), to))
  }

  lemma RelocatedElements(folders: seq<Folder>, from: Path, to: Path)
    requires to != []
    ensures forall f <- folders :: Arrived(folders, f, from, to) in Relocated(folders, from, to)
    ensures forall g <- Relocated(folders, from, to) :: exists f <- folders :: g == Arrived(folders, f, from, to)
    ensures |Relocated(folders, from, to)| == |folders|
  {
    var moved := RehomedAll(folders, from, to);
    var yielded := YieldedAll(moved, to, Taken(moved, to));
    SortKeepsElements(yielded);
    assert |SortByPath(yielded)| == |multiset(SortByPath(yielded))| == |yielded|;
    forall f <- folders ensures Arrived(folders, f, from, to) in yielded {
      var i :| 0 <= i < |folders| && folders[i] == f;
      assert yielded[i] == Arrived(folders, f, from, to);
    }
    forall g <- yielded ensures exists f <- folders :: g == Arrived(folders, f, from, to) {
      var i :| 0 <= i < |yielded| && yielded[i] == g;
      assert folders[i] in folders && g == Arrived(folders, folders[i], from, to);
    }
  }

  /** The live places move, and only they do. */
  lemma RelocatedLive(folders: seq<Folder>, from: Path, to: Path)
    requires to != []
    ensures Live(Relocated(folders, from, to)) == set p <- Live(folders) :: Moved(from, to, p)
  {
    RelocatedElements(folders, from, to);
    assert Moved(from, to, from) == to;
    forall f ensures Arrived(folders, f, from, to).path == Moved(from, to, f.path) {
    }
    var after := Relocated(folders, from, to);
    forall p | p in Live(folders) ensures Moved(from, to, p) in Live(after) {
      var f :| f in folders && f.path == p;
      assert Arrived(folders, f, from, to) in after;
    }
  }

  function RemovedFolder(folders: seq<Folder>, path: Path): (r: seq<Folder>)
    ensures forall f :: f in r <==> f in folders && f.path != path
    ensures |r| <= |folders|
    ensures |r| == |folders| <==> path !in Live(folders)
  {
    if folders == [] then []
    else if folders[0].path == path then RemovedFolder(folders[1..], path)
    else [folders[0]] + RemovedFolder(folders[1..], path)
  }

  /** The first row at `path`, as `find` finds it. */
  function Find(folders: seq<Folder>, path: Path): (f: Option<Folder>)
    ensures f.Some? ==> f.value in folders && f.value.path == path
    ensures f.None? <==> path !in Live(folders)
  {
    if folders == [] then None
    else if folders[0].path == path then Some(folders[0])
    else Find(folders[1..], path)
  }

  /** A setting an admin changes on one project. */
  datatype Setting = Lock(locked: bool) | Gate(gate: Option<string>)

  function Set(f: Folder, setting: Setting): Folder {
    match setting
    case Lock(locked) => f.(locked := locked)
    case Gate(gate) => f.(gate := gate)
  }

  /** The tree with its first row at `path` set. */
  function Edited(folders: seq<Folder>, path: Path, setting: Setting): (r: seq<Folder>)
    ensures |r| == |folders|
    ensures path !in Live(folders) ==> r == folders
  {
    if folders == [] then []
    else if folders[0].path == path then [Set(folders[0], setting)] + folders[1..]
    else
      assert forall f <- folders[1..] :: f in folders;
      [folders[0]] + Edited(folders[1..], path, setting)
  }

  /** The newest alias at or above `path`, and where `path` is under it now. */
  function AliasHit(aliases: seq<Path>, at: Path, path: Path): (hit: Option<Path>)
    ensures hit.None? <==> forall a <- aliases :: !Covers(a, path)
  {
    if aliases == [] then None else
    var last := aliases[|aliases| - 1];
    assert aliases == aliases[..|aliases| - 1] + [last];
    if Covers(last, path) then Some(at + path[|last|..])
    else AliasHit(aliases[..|aliases| - 1], at, path)
  }

  /** The last of the aliases that is over the place. */
  ghost predicate NewestOver(aliases: seq<Path>, path: Path, i: int) {
    && 0 <= i < |aliases| && Covers(aliases[i], path)
    && forall j | i < j < |aliases| :: !Covers(aliases[j], path)
  }

  /** It is the newest alias over the place that answers, with what of the place is below it. */
  lemma {:induction false} NewestAliasAnswers(aliases: seq<Path>, at: Path, path: Path, i: int)
    ensures (exists a <- aliases :: Covers(a, path)) <==> AliasHit(aliases, at, path).Some?
    ensures NewestOver(aliases, path, i) ==> AliasHit(aliases, at, path) == Some(at + path[|aliases[i]|..])
  {
    if aliases != [] && !Covers(aliases[|aliases| - 1], path) {
      NewestAliasAnswers(aliases[..|aliases| - 1], at, path, i);
    }
  }

  /** Where an old place is now, if a project left it. */
  function RenamedPath(folders: seq<Folder>, path: Path): Option<Path> {
    if path in Live(folders) then None else FirstHit(folders, path)
  }

  function FirstHit(folders: seq<Folder>, path: Path): Option<Path> {
    if folders == [] then None else
    var hit := AliasHit(folders[0].renamedFrom, folders[0].path, path);
    if hit.Some? then hit else FirstHit(folders[1..], path)
  }

  /** The locked projects, and the old places of a move still under way. */
  function LockedPrefixes(folders: seq<Folder>, relocation: Option<Relocation>): seq<Path> {
    var locked := LockedPaths(folders);
    match relocation
    case None => locked
    case Some(job) => locked + OldPlaces(locked, job)
  }

  function LockedPaths(folders: seq<Folder>): (locked: seq<Path>)
    ensures forall p :: p in locked <==> exists f <- folders :: f.locked && f.path == p
  {
    if folders == [] then []
    else if folders[0].locked then [folders[0].path] + LockedPaths(folders[1..])
    else LockedPaths(folders[1..])
  }

  function OldPlaces(locked: seq<Path>, job: Relocation): (places: seq<Path>)
    ensures forall p <- locked | Covers(job.to, p) :: Moved(job.to, job.from, p) in places
    ensures forall q <- places :: exists p <- locked :: Covers(job.to, p) && q == Moved(job.to, job.from, p)
  {
    if locked == [] then []
    else if Covers(job.to, locked[0]) then
      [Moved(job.to, job.from, locked[0])] + OldPlaces(locked[1..], job)
    else OldPlaces(locked[1..], job)
  }
}
