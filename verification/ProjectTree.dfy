/**
 The project tree changed in place, as `update_folders` runs each change: a
 change that is refused leaves the tree as it was (src/content/store.rs).
 */
module ProjectTree {
  import opened Wrappers
  import opened Slug
  import opened Paths
  import opened Folders

  datatype TreeError = BadName | BadParent | AppThere | NoParent | PathTaken | NoProject | BadGate

  /** Setting the first row at a path, by its place in the list. */
  lemma {:induction false} EditedAt(folders: seq<Folder>, i: nat, path: Path, setting: Setting)
    requires i < |folders| && folders[i].path == path
    requires forall k | 0 <= k < i :: folders[k].path != path
    ensures Edited(folders, path, setting) == folders[i := Set(folders[i], setting)]
  {
    if i > 0 {
      EditedAt(folders[1..], i - 1, path, setting);
    }
  }

  class Tree {
    var folders: seq<Folder>

    constructor ()
      ensures folders == []
    {
      folders := [];
    }

    /** Nobody answers to `path`, or to a place below it, as an old name. */
    method DropAlias(path: Path)
      modifies this
      ensures folders == DroppedAll(old(folders), path)
    {
      ghost var was := folders;
      for i := 0 to |folders|
        invariant |folders| == |was|
        invariant forall k | 0 <= k < i :: folders[k] == Dropped(was[k], path)
        invariant forall k | i <= k < |was| :: folders[k] == was[k]
      {
        folders := folders[i := Dropped(folders[i], path)];
      }
    }

    /** `parent/name`, unless an app or a project is there or no parent is. */
    method CreateFolder(parent: Path, name: string, appThere: bool, now: nat) returns (r: Result<Folder, TreeError>)
      modifies this
      ensures r.Err? ==> folders == old(folders)
      ensures r.Ok? <==>
                && ValidSegment(name) && ValidPath(parent) && !appThere
                && (parent == [] || parent in Live(old(folders)))
                && parent + [name] !in Live(old(folders))
      ensures r.Ok? ==> r.value == NewFolder(parent + [name], now) && folders == Created(old(folders), r.value)
    {
      if !ValidSegment(name) {
        return Err(BadName);
      }
      if !ValidPath(parent) {
        return Err(BadParent);
      }
      var path := parent + [name];
      if appThere {
        return Err(AppThere);
      }
      var folder := NewFolder(path, now);
      if parent != [] && Find(folders, parent).None? {
        return Err(NoParent);
      }
      if Find(folders, path).Some? {
        return Err(PathTaken);
      }
      DropAlias(folder.path);
      folders := folders + [folder];
      folders := SortByPath(folders);
      return Ok(folder);
    }

    /** `find` the project's row and set it. */
    method SetFirst(path: Path, setting: Setting) returns (r: Result<(), TreeError>)
      modifies this
      ensures r == if path in Live(old(folders)) then Ok(()) else Err(NoProject)
      ensures folders == Edited(old(folders), path, setting)
    {
      for i := 0 to |folders|
        invariant folders == old(folders)
        invariant forall k | 0 <= k < i :: folders[k].path != path
      {
        if folders[i].path == path {
          EditedAt(folders, i, path, setting);
          folders := folders[i := Set(folders[i], setting)];
          return Ok(());
        }
      }
      return Err(NoProject);
    }

    method SetLocked(path: Path, locked: bool) returns (r: Result<(), TreeError>)
      modifies this
      ensures r == if path in Live(old(folders)) then Ok(()) else Err(NoProject)
      ensures folders == Edited(old(folders), path, Lock(locked))
    {
      r := SetFirst(path, Lock(locked));
    }

    /** A word that names no access level is refused; nothing clears the setting. */
    method SetFolderGate(path: Path, word: Option<string>) returns (r: Result<(), TreeError>)
      modifies this
      ensures r == if word.Some? && NormaliseGate(word.value).None? then Err(BadGate)
                   else if path in Live(old(folders)) then Ok(())
                   else Err(NoProject)
      ensures folders == if r == Err(BadGate) then old(folders)
                         else Edited(old(folders), path, Gate(if word.Some? then NormaliseGate(word.value) else None))
    {
      var gate := None;
      if word.Some? {
        gate := NormaliseGate(word.value);
        if gate.None? {
          return Err(BadGate);
        }
      }
      r := SetFirst(path, Gate(gate));
    }

    /** Moves the project at `from`, and all below it, to `to`. */
    method RelocateFolder(from: Path, to: Path) returns (r: Result<(), TreeError>)
      requires to != []
      modifies this
      ensures r == if from in Live(old(folders)) then Ok(()) else Err(NoProject)
      ensures folders == if r.Ok? then Relocated(old(folders), from, to) else old(folders)
    {
      if Find(folders, from).None? {
        return Err(NoProject);
      }
      MoveRows(from, to);
      var newPaths := Taken(folders, to);
      YieldPaths(to, newPaths);
      folders := SortByPath(folders);
      return Ok(());
    }

    method MoveRows(from: Path, to: Path)
      requires to != []
      modifies this
      ensures folders == RehomedAll(old(folders), from, to)
    {
      ghost var was := folders;
      for i := 0 to |folders|
        invariant |folders| == |was|
        invariant forall k | 0 <= k < i :: folders[k] == Rehomed(was[k], from, to)
        invariant forall k | i <= k < |was| :: folders[k] == was[k]
      {
        var folder := folders[i];
        if folder.path == from {
          var aliases := Without(folder.renamedFrom, {to});
          aliases := aliases + [from];
          if |aliases| > MAX_ALIASES {
            var excess := |aliases| - MAX_ALIASES;
            aliases := aliases[excess..];
          }
          folder := folder.(path := to, name := Last(to), renamedFrom := aliases);
        } else if Covers(from, folder.path) {
          folder := folder.(path := to + folder.path[|from|..]);
        }
        folders := folders[i := folder];
      }
    }

    /** Takes each of `newPaths` in turn from the aliases of every project but the one at `to`. */
    method YieldPaths(to: Path, newPaths: set<Path>)
      modifies this
      ensures folders == YieldedAll(old(folders), to, newPaths)
    {
      ghost var was := folders;
      var left := newPaths;
      assert newPaths - left == {};
      forall i | 0 <= i < |was| ensures Yielded(was[i], to, {}) == was[i] {
        WithoutNothing(was[i].renamedFrom);
      }
      while left != {}
        invariant left <= newPaths
        invariant folders == YieldedAll(was, to, newPaths - left)
        decreases left
      {
        var path :| path in left;
        ghost var done := newPaths - left;
        for i := 0 to |folders|
          invariant |folders| == |was|
          invariant forall k | 0 <= k < i :: folders[k] == Yielded(was[k], to, done + {path})
          invariant forall k | i <= k < |was| :: folders[k] == Yielded(was[k], to, done)
        {
          if folders[i].path != to {
            WithoutTwice(was[i].renamedFrom, done, {path});
            folders := folders[i := folders[i].(renamedFrom := Without(folders[i].renamedFrom, {path}))];
          }
        }
        left := left - {path};
        assert newPaths - left == done + {path};
      }
      assert newPaths - left == newPaths;
    }

    /** Removes the row at `path`; that it is empty is the caller's to check. */
    method RemoveFolder(path: Path) returns (r: Result<(), TreeError>)
      modifies this
      ensures r == if path in Live(old(folders)) then Ok(()) else Err(NoProject)
      ensures folders == RemovedFolder(old(folders), path)
    {
      var before := |folders|;
      folders := RemovedFolder(folders, path);
      if |folders| == before {
        return Err(NoProject);
      }
      return Ok(());
    }
  }
}
