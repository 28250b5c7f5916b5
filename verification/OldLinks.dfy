/**
 Where links to the places projects have left lead (src/content/store.rs): the
 first row with an alias over the place answers, so an older alias further up
 may come before the project that was there last.
 */
module OldLinks {
  import opened Wrappers
  import opened Text
  import opened Slug
  import opened Paths
  import opened Folders
  import opened ProjectTree
  import opened TreeRuns

  // --- the order of places, and of the rows that answer ---

  lemma {:induction false} BeginsLess(a: string, tail: string)
    requires tail != ""
    ensures TextLess(a, a + tail)
  {
    if a != "" {
      BeginsLess(a[1..], tail);
      assert (a + tail)[1..] == a[1..] + tail;
    }
  }

  /** A place comes before those below it. */
  lemma AboveIsLess(p: Path, q: Path)
    requires ValidPath(q) && Covers(p, q) && p != q
    ensures PathLess(p, q)
  {
    if p == [] {
      WrittenRoundTrip(q);
    } else {
      WrittenBelow(p, q);
      BeginsLess(Written(p), "/" + Written(q[|p|..]));
      assert Written(p) + ("/" + Written(q[|p|..])) == Written(q);
    }
  }

  /** The row that answers is the first with an alias over the place. */
  lemma {:induction false} FirstHitAt(folders: seq<Folder>, path: Path, g: Folder)
    requires StrictlyAscending(folders) && g in folders && AliasHit(g.renamedFrom, g.path, path).Some?
    requires forall h <- folders :: PathLess(h.path, g.path) ==> AliasHit(h.renamedFrom, h.path, path).None?
    ensures FirstHit(folders, path) == AliasHit(g.renamedFrom, g.path, path)
  {
    if folders[0] != g {
      var i :| 0 <= i < |folders| && folders[i] == g;
      assert PathLess(folders[0].path, g.path);
      FirstHitAt(folders[1..], path, g);
    }
  }

  // --- who holds an alias over a place ---

  /** The row has an alias that is the place or above it. */
  predicate Over(f: Folder, p: Path) {
    exists a <- f.renamedFrom :: Covers(a, p)
  }

  /** The topmost row with an alias over the place. */
  ghost predicate TopHolder(folders: seq<Folder>, f: Folder, p: Path) {
    && f in folders && Over(f, p)
    && forall g <- folders | Over(g, p) :: Covers(f.path, g.path)
  }

  /** Over a live place, the aliases are live, and so held further up. */
  lemma HoldersAbove(folders: seq<Folder>, f: Folder, p: Path, a: Path)
    requires WellFormed(folders) && p in Live(folders) && f in folders && a in f.renamedFrom && Covers(a, p)
    ensures Covers(f.path, a) && f.path != a && Covers(f.path, p)
  {
    AncestorsLive(Live(folders), p, a);
  }

  lemma {:induction false} SomeTopHolder(folders: seq<Folder>, f: Folder, p: Path) returns (top: Folder)
    requires WellFormed(folders) && p in Live(folders) && f in folders && Over(f, p)
    ensures TopHolder(folders, top, p)
    decreases |f.path|
  {
    if g :| g in folders && Over(g, p) && !Covers(f.path, g.path) {
      var a :| a in f.renamedFrom && Covers(a, p);
      var b :| b in g.renamedFrom && Covers(b, p);
      HoldersAbove(folders, f, p, a);
      HoldersAbove(folders, g, p, b);
      PrefixesChain(f.path, g.path, p);
      top := SomeTopHolder(folders, g, p);
    } else {
      top := f;
    }
  }

  // --- the rows once the project has moved ---

  lemma {:induction false} WithoutAppend(aliases: seq<Path>, last: Path, gone: set<Path>)
    ensures last in gone ==> Without(aliases + [last], gone) == Without(aliases, gone)
    ensures last !in gone ==> Without(aliases + [last], gone) == Without(aliases, gone) + [last]
  {
    var all := aliases + [last];
    if aliases == [] {
      assert all == [last] && Without(all[1..], gone) == [];
    } else {
      assert all[1..] == aliases[1..] + [last] && all[0] == aliases[0];
      WithoutAppend(aliases[1..], last, gone);
    }
  }

  lemma HitAppend(aliases: seq<Path>, last: Path, at: Path, path: Path)
    ensures AliasHit(aliases + [last], at, path) ==
            if Covers(last, path) then Some(at + path[|last|..]) else AliasHit(aliases, at, path)
  {
    assert (aliases + [last])[..|aliases|] == aliases;
  }

  /** Taking away aliases that are not over a place changes nothing for it. */
  lemma {:induction false} WithoutKeepsHit(aliases: seq<Path>, gone: set<Path>, at: Path, path: Path)
    requires forall a <- aliases | Covers(a, path) :: a !in gone
    ensures AliasHit(Without(aliases, gone), at, path) == AliasHit(aliases, at, path)
  {
    if aliases != [] {
      var front, last := aliases[..|aliases| - 1], aliases[|aliases| - 1];
      assert aliases == front + [last];
      WithoutAppend(front, last, gone);
      HitAppend(front, last, at, path);
      HitAppend(Without(front, gone), last, at, path);
      WithoutKeepsHit(front, gone, at, path);
    }
  }

  /** What a row that has arrived answers for a place of the project that moved. */
  function Answer(f: Folder, from: Path, to: Path, p: Path): Option<Path> {
    if f.path == from then (if Covers(from, p) then Some(Moved(from, to, p)) else None)
    else AliasHit(f.renamedFrom, Moved(from, to, f.path), p)
  }

  lemma ArrivedAnswers(folders: seq<Folder>, f: Folder, from: Path, to: Path, p: Path)
    requires WellFormed(folders) && MayRelocate(folders, from, to) && f in folders
    requires p in Live(folders) && Covers(from, p)
    ensures var g := Arrived(folders, f, from, to);
            g.path == Moved(from, to, f.path) && AliasHit(g.renamedFrom, g.path, p) == Answer(f, from, to, p)
  {
    var taken := Taken(RehomedAll(folders, from, to), to);
    if f.path == from {
      MovedHolds(f, from, to, p);
    } else {
      MovedDistinct(Live(folders), from, to, from, f.path);
      forall a <- f.renamedFrom | Covers(a, p) ensures a !in taken {
        if a in taken {
          CoversThrough(to, a, p);
          AncestorsLive(Live(folders), p, to);
        }
      }
      WithoutKeepsHit(f.renamedFrom, taken, Moved(from, to, f.path), p);
    }
  }

  lemma MovedHolds(f: Folder, from: Path, to: Path, p: Path)
    requires to != [] && Covers(from, p)
    ensures AliasHit(Remembered(f.renamedFrom, from, to), to, p) == Some(Moved(from, to, p))
  {
  }

  /** Its old places are not live any more; its new ones are. */
  lemma LeftAndArrived(folders: seq<Folder>, from: Path, to: Path, p: Path)
    requires WellFormed(folders) && MayRelocate(folders, from, to) && p in Live(folders) && Covers(from, p)
    ensures p !in Live(Relocated(folders, from, to))
    ensures Moved(from, to, p) in Live(Relocated(folders, from, to))
  {
    RelocatedLive(folders, from, to);
    if q :| q in Live(folders) && p == Moved(from, to, q) {
      AncestorsLive(Live(folders), p, to);
    }
  }

  // --- exactly when a link arrives ---

  /**
   An older alias gets in the way: it is the newest of the topmost row that has
   one over the place, that row is above the project and comes before its new
   place, and the alias does not happen to lead there.
   */
  ghost predicate LedElsewhere(folders: seq<Folder>, from: Path, to: Path, p: Path) {
    exists f, i :: InTheWay(folders, from, to, p, f, i)
  }

  ghost predicate InTheWay(folders: seq<Folder>, from: Path, to: Path, p: Path, f: Folder, i: int) {
    && TopHolder(folders, f, p) && NewestOver(f.renamedFrom, p, i)
    && Covers(f.path, from) && f.path != from && PathLess(f.path, to)
    && !(Covers(f.renamedFrom[i], from) && to == Moved(f.renamedFrom[i], f.path, from))
  }

  /** With a row above answering, the link arrives only if its alias leads just where the project went. */
  lemma SameArrival(at: Path, a: Path, from: Path, to: Path, p: Path)
    requires Covers(a, p) && Covers(from, p) && !Covers(to, at)
    ensures at + p[|a|..] == Moved(from, to, p) <==> Covers(a, from) && to == Moved(a, at, from)
  {
    if |a| <= |from| {
      PrefixesChain(a, from, p);
      assert p[|a|..] == from[|a|..] + p[|from|..];
      assert at + p[|a|..] == (at + from[|a|..]) + p[|from|..];
      SameFront(at + from[|a|..], to, p[|from|..]);
    } else {
      PrefixesChain(from, a, p);
      assert p[|from|..] == a[|from|..] + p[|a|..];
      assert to + p[|from|..] == (to + a[|from|..]) + p[|a|..];
      SameFront(at, to + a[|from|..], p[|a|..]);
    }
  }

  lemma SameFront(a: Path, b: Path, tail: Path)
    ensures a + tail == b + tail <==> a == b
  {
    if a + tail == b + tail {
      assert (a + tail)[..|a|] == a && (b + tail)[..|b|] == b;
    }
  }

  /** No place comes before one above it. */
  lemma NoneBefore(p: Path, q: Path)
    requires ValidPath(q) && Covers(p, q)
    ensures !PathLess(q, p)
  {
    if p != q {
      AboveIsLess(p, q);
    }
    TextLessTotal(Written(p), Written(q));
  }

  lemma AnswersIfOver(f: Folder, from: Path, to: Path, p: Path)
    requires f.path != from
    ensures Answer(f, from, to, p).Some? <==> Over(f, p)
  {
  }

  lemma RowOf(folders: seq<Folder>, from: Path, to: Path, h: Folder) returns (f: Folder)
    requires WellFormed(folders) && MayRelocate(folders, from, to) && h in Relocated(folders, from, to)
    ensures f in folders && h == Arrived(folders, f, from, to) && ValidPath(h.path)
  {
    RelocatedElements(folders, from, to);
    RelocatedSorted(folders, from, to);
    f :| f in folders && h == Arrived(folders, f, from, to);
  }

  /** A row that comes before the new place and answers did so before the move. */
  lemma AnswersBefore(folders: seq<Folder>, from: Path, to: Path, p: Path, h: Folder) returns (f: Folder)
    requires WellFormed(folders) && MayRelocate(folders, from, to) && p in Live(folders) && Covers(from, p)
    requires h in Relocated(folders, from, to) && PathLess(h.path, to) && AliasHit(h.renamedFrom, h.path, p).Some?
    ensures f in folders && Over(f, p) && !Covers(from, f.path) && h.path == f.path
  {
    f := RowOf(folders, from, to, h);
    ArrivedAnswers(folders, f, from, to, p);
    if Covers(from, f.path) {
      NoneBefore(to, h.path);
    } else {
      AnswersIfOver(f, from, to, p);
    }
  }

  /** The moved project answers, when no row that has an alias over the place comes before it. */
  lemma ProjectAnswers(folders: seq<Folder>, from: Path, to: Path, p: Path)
    requires WellFormed(folders) && MayRelocate(folders, from, to) && p in Live(folders) && Covers(from, p)
    requires forall f <- folders | Over(f, p) && !Covers(from, f.path) :: !PathLess(f.path, to)
    ensures RenamedPath(Relocated(folders, from, to), p) == Some(Moved(from, to, p))
  {
    var after := Relocated(folders, from, to);
    LeftAndArrived(folders, from, to, p);
    RelocatedSorted(folders, from, to);
    var g := ProjectArrived(folders, from, to, p);
    forall h <- after | PathLess(h.path, to) ensures AliasHit(h.renamedFrom, h.path, p).None? {
      if AliasHit(h.renamedFrom, h.path, p).Some? {
        var f := AnswersBefore(folders, from, to, p, h);
      }
    }
    FirstHitAt(after, p, g);
  }

  lemma ProjectArrived(folders: seq<Folder>, from: Path, to: Path, p: Path) returns (g: Folder)
    requires WellFormed(folders) && MayRelocate(folders, from, to) && p in Live(folders) && Covers(from, p)
    ensures g in Relocated(folders, from, to) && g.path == to && AliasHit(g.renamedFrom, g.path, p) == Some(Moved(from, to, p))
  {
    var project :| project in folders && project.path == from;
    RelocatedElements(folders, from, to);
    ArrivedAnswers(folders, project, from, to, p);
    g := Arrived(folders, project, from, to);
  }

  lemma RowStays(folders: seq<Folder>, from: Path, to: Path, p: Path, f: Folder, i: int) returns (g: Folder)
    requires WellFormed(folders) && MayRelocate(folders, from, to) && p in Live(folders) && Covers(from, p)
    requires f in folders && NewestOver(f.renamedFrom, p, i) && !Covers(from, f.path)
    ensures g in Relocated(folders, from, to) && g.path == f.path
    ensures AliasHit(g.renamedFrom, g.path, p) == Some(f.path + p[|f.renamedFrom[i]|..])
  {
    RelocatedElements(folders, from, to);
    ArrivedAnswers(folders, f, from, to, p);
    NewestAliasAnswers(f.renamedFrom, f.path, p, i);
    g := Arrived(folders, f, from, to);
  }

  /** A row above the project answers for it, when it is topmost and comes before the new place. */
  lemma RowAboveAnswers(folders: seq<Folder>, from: Path, to: Path, p: Path, f: Folder, i: int)
    requires WellFormed(folders) && MayRelocate(folders, from, to) && p in Live(folders) && Covers(from, p)
    requires TopHolder(folders, f, p) && NewestOver(f.renamedFrom, p, i)
    requires !Covers(from, f.path) && PathLess(f.path, to)
    ensures RenamedPath(Relocated(folders, from, to), p) == Some(f.path + p[|f.renamedFrom[i]|..])
  {
    var after := Relocated(folders, from, to);
    LeftAndArrived(folders, from, to, p);
    RelocatedSorted(folders, from, to);
    var g := RowStays(folders, from, to, p, f, i);
    forall h <- after | PathLess(h.path, f.path) ensures AliasHit(h.renamedFrom, h.path, p).None? {
      if AliasHit(h.renamedFrom, h.path, p).Some? {
        TextLessTransitive(Written(h.path), Written(f.path), Written(to));
        var was := AnswersBefore(folders, from, to, p, h);
        NoneBefore(f.path, was.path);
      }
    }
    FirstHitAt(after, p, g);
  }

  lemma NewestIs(f: Folder, p: Path) returns (i: int)
    requires Over(f, p)
    ensures NewestOver(f.renamedFrom, p, i)
  {
    i := |f.renamedFrom| - 1;
    while !Covers(f.renamedFrom[i], p)
      invariant 0 <= i < |f.renamedFrom|
      decreases i
      invariant forall j | i < j < |f.renamedFrom| :: !Covers(f.renamedFrom[j], p)
    {
      assert exists k | 0 <= k < |f.renamedFrom| :: Covers(f.renamedFrom[k], p);
      i := i - 1;
    }
  }

  /**
   A link to a place of the project that moved, or of one below it, arrives at its
   new place exactly when no older alias gets in the way: one that, in the tree
   before the move, is held further up than the project.
   */
  lemma OldLinkArrives(folders: seq<Folder>, from: Path, to: Path, p: Path)
    requires WellFormed(folders) && MayRelocate(folders, from, to)
    requires p in Live(folders) && Covers(from, p)
    ensures RenamedPath(Relocated(folders, from, to), p) == Some(Moved(from, to, p)) <==> !LedElsewhere(folders, from, to, p)
    ensures Moved(from, to, p) in Live(Relocated(folders, from, to))
  {
    LeftAndArrived(folders, from, to, p);
    if f :| f in folders && Over(f, p) {
      var top := SomeTopHolder(folders, f, p);
      var i := NewestIs(top, p);
      TopDecides(folders, from, to, p, top, i);
    } else {
      ProjectAnswers(folders, from, to, p);
    }
  }

  lemma TopDecides(folders: seq<Folder>, from: Path, to: Path, p: Path, top: Folder, i: int)
    requires WellFormed(folders) && MayRelocate(folders, from, to) && p in Live(folders) && Covers(from, p)
    requires TopHolder(folders, top, p) && NewestOver(top.renamedFrom, p, i)
    ensures RenamedPath(Relocated(folders, from, to), p) == Some(Moved(from, to, p)) <==> !LedElsewhere(folders, from, to, p)
  {
    HoldersAbove(folders, top, p, top.renamedFrom[i]);
    PrefixesChain(top.path, from, p);
    PrefixesChain(from, top.path, p);
    OnlyTop(folders, from, to, p, top, i);
    if !Covers(from, top.path) && PathLess(top.path, to) {
      RowAboveAnswers(folders, from, to, p, top, i);
      if Covers(to, top.path) {
        NoneBefore(to, top.path);
      }
      SameArrival(top.path, top.renamedFrom[i], from, to, p);
    } else {
      forall f <- folders | Over(f, p) && !Covers(from, f.path) ensures !PathLess(f.path, to) {
        TopIsFirst(from, to, top.path, f.path);
      }
      ProjectAnswers(folders, from, to, p);
    }
  }

  /** There is one topmost row, and one newest alias of it over the place. */
  lemma OnlyTop(folders: seq<Folder>, from: Path, to: Path, p: Path, top: Folder, i: int)
    requires WellFormed(folders) && TopHolder(folders, top, p) && NewestOver(top.renamedFrom, p, i)
    ensures LedElsewhere(folders, from, to, p) <==> InTheWay(folders, from, to, p, top, i)
  {
    if f, j :| InTheWay(folders, from, to, p, f, j) {
      assert f.path == top.path;
      AscendingDistinct(folders);
      assert f == top && j == i;
    }
  }

  /** What is under a row does not come before a place that row does not come before. */
  lemma TopIsFirst(from: Path, to: Path, top: Path, path: Path)
    requires ValidPath(path) && Covers(top, path) && !Covers(from, path)
    requires Covers(from, top) || !PathLess(top, to)
    ensures !PathLess(path, to)
  {
    if Covers(from, top) {
      CoversThrough(from, top, path);
    } else if PathLess(path, to) && top != path {
      AboveIsLess(top, path);
      TextLessTransitive(Written(top), Written(path), Written(to));
    }
  }

  // --- a link that is led elsewhere ---

  lemma OneEditMore(edits: seq<Edit>, edit: Edit)
    ensures Run(edits + [edit]) == Apply(Run(edits), edit)
  {
    assert (edits + [edit])[..|edits|] == edits;
  }

  /** Making a project adds its place, and leaves every row that has no alias there. */
  lemma MadeRows(folders: seq<Folder>, f: Folder, h: Folder)
    requires h == f || (h in folders && forall a <- h.renamedFrom :: !Covers(f.path, a))
    ensures Live(Created(folders, f)) == Live(folders) + {f.path}
    ensures h in Created(folders, f)
  {
    var all := DroppedAll(folders, f.path) + [f];
    DroppedElements(folders, f);
    SortKeepsElements(all);
    if h == f {
      assert all[|folders|] == f;
    } else {
      var i :| 0 <= i < |folders| && folders[i] == h;
      assert AtOrUnder(h.renamedFrom, f.path) == {};
      WithoutNothing(h.renamedFrom);
      assert all[i] == h;
    }
  }

  /** A row that stays keeps its aliases, if none is at or under the new place. */
  lemma StaysAsItIs(folders: seq<Folder>, h: Folder, from: Path, to: Path)
    requires to != [] && h in folders && !Covers(from, h.path)
    requires forall a <- h.renamedFrom :: !Covers(to, a)
    ensures h in Relocated(folders, from, to)
  {
    RelocatedElements(folders, from, to);
    var taken := Taken(RehomedAll(folders, from, to), to);
    NoneGone(h.renamedFrom, taken);
  }

  lemma {:induction false} NoneGone(aliases: seq<Path>, gone: set<Path>)
    requires forall a <- aliases :: a !in gone
    ensures Without(aliases, gone) == aliases
  {
    if aliases != [] {
      NoneGone(aliases[1..], gone);
    }
  }

  lemma MovesWithAliases(folders: seq<Folder>, h: Folder, to: Path) returns (g: Folder)
    requires to != [] && h in folders
    ensures g in Relocated(folders, h.path, to)
    ensures g.path == to && g.renamedFrom == Remembered(h.renamedFrom, h.path, to)
  {
    RelocatedElements(folders, h.path, to);
    g := Arrived(folders, h, h.path, to);
  }

  lemma Makes(edits: seq<Edit>, parent: Path, name: string, h: Folder) returns (later: seq<Edit>)
    requires MayCreate(Run(edits), parent, name, false)
    requires h == NewFolder(parent + [name], 0) || (h in Run(edits) && forall a <- h.renamedFrom :: !Covers(parent + [name], a))
    ensures Live(Run(later)) == Live(Run(edits)) + {parent + [name]} && h in Run(later)
  {
    later := edits + [Create(parent, name, false, 0)];
    OneEditMore(edits, Create(parent, name, false, 0));
    MadeRows(Run(edits), NewFolder(parent + [name], 0), h);
  }

  lemma MovesAway(edits: seq<Edit>, h: Folder, from: Path, to: Path) returns (later: seq<Edit>)
    requires MayRelocate(Run(edits), from, to)
    requires h in Run(edits) && !Covers(from, h.path) && forall a <- h.renamedFrom :: !Covers(to, a)
    ensures Live(Run(later)) == (set p <- Live(Run(edits)) :: Moved(from, to, p)) && h in Run(later)
  {
    later := edits + [Relocate(from, to)];
    OneEditMore(edits, Relocate(from, to));
    RelocatedLive(Run(edits), from, to);
    StaysAsItIs(Run(edits), h, from, to);
  }

  lemma MovesTo(edits: seq<Edit>, h: Folder, to: Path) returns (later: seq<Edit>, g: Folder)
    requires MayRelocate(Run(edits), h.path, to) && h in Run(edits)
    ensures Live(Run(later)) == set p <- Live(Run(edits)) :: Moved(h.path, to, p)
    ensures g in Run(later) && g.path == to && g.renamedFrom == Remembered(h.renamedFrom, h.path, to)
  {
    later := edits + [Relocate(h.path, to)];
    OneEditMore(edits, Relocate(h.path, to));
    RelocatedLive(Run(edits), h.path, to);
    g := MovesWithAliases(Run(edits), h, to);
  }

  lemma MakesTwo(a: string, b: string) returns (edits: seq<Edit>, top: Folder, h: Folder)
    requires ValidSegment(a) && ValidSegment(b)
    ensures RenamesOnly(edits) && Live(Run(edits)) == {[a], [a, b]}
    ensures top == NewFolder([a], 0) && h == NewFolder([a, b], 0) && top in Run(edits) && h in Run(edits)
  {
    assert [] + [a] == [a] && [a] + [b] == [a, b];
    top, h := NewFolder([a], 0), NewFolder([a, b], 0);
    edits := [Create([], a, false, 0)];
    OneEditMore([], edits[0]);
    MadeRows([], top, top);
    assert [] + edits == edits && Live(Run(edits)) == {[a]};
    OneEditMore(edits, Create([a], b, false, 0));
    MadeRows(Run(edits), h, h);
    MadeRows(Run(edits), h, top);
    edits := edits + [Create([a], b, false, 0)];
    assert Live(Run(edits)) == {[a], [a, b]};
  }

  /** Where one of two or three places goes when one of them moves. */
  lemma PlacesAfter(a: string, to: string, other: string, b: string)
    requires a != other
    ensures Moved([a], [to], [a]) == [to] && Moved([a], [to], [a, b]) == [to, b] && Moved([a], [to], [other]) == [other]
    ensures Moved([a, b], [to], [a, b]) == [to] && Moved([a, b], [to], [a]) == [a]
    ensures !Covers([a], [other]) && !Covers([other], [a]) && !Covers([a], [other, b]) && !Covers([a, b], [other])
  {
    assert [a][0] != [other][0] && [a][0] != [other, b][0];
  }

  /** Project `b` in `a` moves out to `z`. */
  lemma MovesOut(a: string, b: string, z: string) returns (edits: seq<Edit>, h: Folder)
    requires ValidSegment(a) && ValidSegment(b) && ValidSegment(z) && a != z
    ensures Live(Run(edits)) == {[a], [z]}
    ensures h in Run(edits) && h.path == [z] && h.renamedFrom == [[a, b]]
  {
    var top;
    edits, top, h := MakesTwo(a, b);
    PlacesAfter(a, z, z, b);
    edits, h := MovesTo(edits, h, [z]);
    assert Live(Run(edits)) == {[a], [z]};
  }

  /** Then `a` makes way. */
  lemma MakesWay(a: string, b: string, w: string, z: string) returns (edits: seq<Edit>, h: Folder)
    requires ValidSegment(a) && ValidSegment(b) && ValidSegment(w) && ValidSegment(z) && a != z && a != w && w != z
    ensures Live(Run(edits)) == {[w], [z]}
    ensures h in Run(edits) && h.path == [z] && h.renamedFrom == [[a, b]]
  {
    edits, h := MovesOut(a, b, z);
    PlacesAfter(a, w, z, b);
    PlacesAfter(w, w, a, b);
    edits := MovesAway(edits, h, [a], [w]);
    assert Live(Run(edits)) == {[w], [z]};
  }

  /** A new `b` is made in what was moved out. */
  lemma MadeAgain(a: string, b: string, w: string, z: string) returns (edits: seq<Edit>, h: Folder)
    requires ValidSegment(a) && ValidSegment(b) && ValidSegment(w) && ValidSegment(z) && a != z && a != w && w != z
    ensures Live(Run(edits)) == {[w], [z], [z, b]}
    ensures h in Run(edits) && h.path == [z] && h.renamedFrom == [[a, b]]
  {
    edits, h := MakesWay(a, b, w, z);
    assert [z] + [b] == [z, b] && Parent([z, b]) == [z] && [z, b][0] != [a, b][0];
    edits := Makes(edits, [z], b, h);
    assert Live(Run(edits)) == {[w], [z], [z, b]};
  }

  /** And with it that moves to `a`: its alias `a/b` is a place of its own now. */
  lemma AliasComesAlive(a: string, b: string, w: string, z: string) returns (edits: seq<Edit>, h: Folder)
    requires ValidSegment(a) && ValidSegment(b) && ValidSegment(w) && ValidSegment(z) && a != z && a != w && w != z
    ensures Live(Run(edits)) == {[w], [a], [a, b]}
    ensures h in Run(edits) && h.path == [a] && h.renamedFrom == [[a, b], [z]]
  {
    edits, h := MadeAgain(a, b, w, z);
    PlacesAfter(z, a, w, b);
    PlacesAfter(z, a, a, b);
    edits, h := MovesTo(edits, h, [a]);
    assert Live(Run(edits)) == {[w], [a], [a, b]};
  }

  lemma OnlyHolder(folders: seq<Folder>, h: Folder, a: string, b: string)
    requires WellFormed(folders) && [a, b] in Live(folders)
    requires h in folders && h.path == [a] && |h.renamedFrom| == 2 && h.renamedFrom[0] == [a, b]
    ensures TopHolder(folders, h, [a, b])
  {
    var p := [a, b];
    assert h.renamedFrom[0] in h.renamedFrom && Covers(h.renamedFrom[0], p);
    forall g <- folders | Over(g, p) ensures Covers(h.path, g.path) {
      var alias :| alias in g.renamedFrom && Covers(alias, p);
      HoldersAbove(folders, g, p, alias);
      assert g.path != [] && |g.path| < |alias| <= 2;
      assert g.path[0] == p[0];
    }
  }

  /**
   It happens, with any names: when that `b` moves out to a place that comes after
   `a`, a link to it is led to `a` instead.
   */
  lemma LedToTheHolder(a: string, b: string, w: string, y: string, z: string) returns (edits: seq<Edit>)
    requires ValidSegment(a) && ValidSegment(b) && ValidSegment(w) && ValidSegment(y) && ValidSegment(z)
    requires a != z && a != w && w != z && y != w && y != a && PathLess([a], [y])
    ensures MayRelocate(Run(edits), [a, b], [y])
    ensures LedElsewhere(Run(edits), [a, b], [y], [a, b])
    ensures RenamedPath(Relocated(Run(edits), [a, b], [y]), [a, b]) == Some([a])
  {
    var h: Folder;
    edits, h := AliasComesAlive(a, b, w, z);
    var folders, from, to := Run(edits), [a, b], [y];
    RunsAreWellFormed(edits);
    OnlyHolder(folders, h, a, b);
    PlacesAfter(z, y, a, b);
    PlacesAfter(a, y, y, b);
    assert NewestOver(h.renamedFrom, from, 0);
    RowAboveAnswers(folders, from, to, from, h, 0);
    assert Moved(from, [a], from) == [a] && from[|from|..] == [];
    assert InTheWay(folders, from, to, from, h, 0);
  }

  // --- where no alias is live ---

  ghost predicate NoAliasLive(folders: seq<Folder>) {
    forall f <- folders, a <- f.renamedFrom :: a !in Live(folders)
  }

  /** Where no alias is a live path, every link to a moved project arrives. */
  lemma OldLinksArrive(folders: seq<Folder>, from: Path, to: Path)
    requires WellFormed(folders) && MayRelocate(folders, from, to) && NoAliasLive(folders)
    ensures forall p <- Live(folders) | Covers(from, p) ::
              && RenamedPath(Relocated(folders, from, to), p) == Some(Moved(from, to, p))
              && Moved(from, to, p) in Live(Relocated(folders, from, to))
  {
    forall p <- Live(folders) | Covers(from, p)
      ensures RenamedPath(Relocated(folders, from, to), p) == Some(Moved(from, to, p))
      ensures Moved(from, to, p) in Live(Relocated(folders, from, to))
    {
      forall f <- folders, a <- f.renamedFrom ensures !Covers(a, p) {
        if Covers(a, p) {
          AncestorsLive(Live(folders), p, a);
        }
      }
      OldLinkArrives(folders, from, to, p);
    }
  }

  /** Every alias is as deep as the project that holds it. */
  ghost predicate SameDepth(folders: seq<Folder>) {
    forall f <- folders, a <- f.renamedFrom :: |a| == |f.path|
  }

  ghost predicate RenamesOnly(edits: seq<Edit>) {
    forall edit <- edits | edit.Relocate? :: Siblings(edit.from, edit.to)
  }

  lemma OneRenameMore(edits: seq<Edit>, edit: Edit)
    requires RenamesOnly(edits) && (edit.Relocate? ==> Siblings(edit.from, edit.to))
    ensures RenamesOnly(edits + [edit])
  {
  }

  lemma ApplyKeepsDepth(folders: seq<Folder>, edit: Edit)
    requires SameDepth(folders)
    requires edit.Relocate? ==> Siblings(edit.from, edit.to)
    ensures SameDepth(Apply(folders, edit))
  {
    match edit
    case Create(parent, name, appThere, now) =>
      if MayCreate(folders, parent, name, appThere) {
        var f := NewFolder(parent + [name], now);
        DroppedElements(folders, f);
        SortKeepsElements(DroppedAll(folders, f.path) + [f]);
      }
    case Relocate(from, to) =>
      if MayRelocate(folders, from, to) {
        RelocatedKeepsDepth(folders, from, to);
      }
    case Remove(path) =>
    case Configure(path, setting) =>
      EditedElements(folders, path, setting);
  }

  lemma RelocatedKeepsDepth(folders: seq<Folder>, from: Path, to: Path)
    requires SameDepth(folders) && Siblings(from, to)
    ensures SameDepth(Relocated(folders, from, to))
  {
    RelocatedElements(folders, from, to);
    var taken := Taken(RehomedAll(folders, from, to), to);
    forall g <- Relocated(folders, from, to), a <- g.renamedFrom ensures |a| == |g.path| {
      var f :| f in folders && g == Arrived(folders, f, from, to);
      ArrivedDepth(f, from, to, taken);
    }
  }

  lemma ArrivedDepth(f: Folder, from: Path, to: Path, taken: set<Path>)
    requires Siblings(from, to) && forall a <- f.renamedFrom :: |a| == |f.path|
    ensures var g := Yielded(Rehomed(f, from, to), to, taken); forall a <- g.renamedFrom :: |a| == |g.path|
  {
  }

  lemma {:induction false} RenamesKeepDepth(edits: seq<Edit>)
    requires RenamesOnly(edits)
    ensures SameDepth(Run(edits))
  {
    if edits != [] {
      var before := edits[..|edits| - 1];
      assert forall edit <- before :: edit in edits;
      RenamesKeepDepth(before);
      assert edits[|edits| - 1] in edits;
      ApplyKeepsDepth(Run(before), edits[|edits| - 1]);
    }
  }

  /**
   On a site where projects are only made, renamed in place, set and removed,
   no alias is ever a live path, and every link to a renamed project, or to
   one below it, arrives.
   */
  lemma RenamedLinksAlwaysArrive(edits: seq<Edit>, from: Path, to: Path)
    requires RenamesOnly(edits)
    requires MayRelocate(Run(edits), from, to)
    ensures NoAliasLive(Run(edits))
    ensures forall p <- Live(Run(edits)) | Covers(from, p) ::
              && RenamedPath(Relocated(Run(edits), from, to), p) == Some(Moved(from, to, p))
              && Moved(from, to, p) in Live(Relocated(Run(edits), from, to))
  {
    RunsAreWellFormed(edits);
    RenamesKeepDepth(edits);
    OldLinksArrive(Run(edits), from, to);
  }

  // --- a second rename ---

  /** What is below a project that moves keeps its aliases, if none is at or under the new place. */
  lemma CarriedAlong(folders: seq<Folder>, h: Folder, from: Path, to: Path) returns (g: Folder)
    requires to != [] && h in folders && Covers(from, h.path) && h.path != from
    requires forall a <- h.renamedFrom :: !Covers(to, a)
    ensures g in Relocated(folders, from, to) && g.path == Moved(from, to, h.path) && g.renamedFrom == h.renamedFrom
  {
    RelocatedElements(folders, from, to);
    var taken := Taken(RehomedAll(folders, from, to), to);
    NoneGone(h.renamedFrom, taken);
    g := Arrived(folders, h, from, to);
  }

  lemma RenamesBelow(edits: seq<Edit>, top: Folder, h: Folder, to: Path) returns (later: seq<Edit>, g: Folder)
    requires RenamesOnly(edits) && MayRelocate(Run(edits), h.path, to) && Siblings(h.path, to)
    requires h in Run(edits) && top in Run(edits) && !Covers(h.path, top.path) && top.renamedFrom == []
    ensures RenamesOnly(later) && Live(Run(later)) == (set p <- Live(Run(edits)) :: Moved(h.path, to, p))
    ensures top in Run(later)
    ensures g in Run(later) && g.path == to && g.renamedFrom == Remembered(h.renamedFrom, h.path, to)
  {
    later := edits + [Relocate(h.path, to)];
    OneEditMore(edits, Relocate(h.path, to));
    OneRenameMore(edits, Relocate(h.path, to));
    RelocatedLive(Run(edits), h.path, to);
    StaysAsItIs(Run(edits), top, h.path, to);
    g := MovesWithAliases(Run(edits), h, to);
  }

  lemma RenamesAbove(edits: seq<Edit>, top: Folder, h: Folder, to: Path) returns (later: seq<Edit>, above: Folder, g: Folder)
    requires RenamesOnly(edits) && MayRelocate(Run(edits), top.path, to) && Siblings(top.path, to)
    requires h in Run(edits) && top in Run(edits) && Covers(top.path, h.path) && h.path != top.path
    requires forall a <- h.renamedFrom :: !Covers(to, a)
    ensures RenamesOnly(later) && Live(Run(later)) == (set p <- Live(Run(edits)) :: Moved(top.path, to, p))
    ensures above in Run(later) && above.path == to && above.renamedFrom == Remembered(top.renamedFrom, top.path, to)
    ensures g in Run(later) && g.path == Moved(top.path, to, h.path) && g.renamedFrom == h.renamedFrom
  {
    later := edits + [Relocate(top.path, to)];
    OneEditMore(edits, Relocate(top.path, to));
    OneRenameMore(edits, Relocate(top.path, to));
    RelocatedLive(Run(edits), top.path, to);
    above := MovesWithAliases(Run(edits), top, to);
    g := CarriedAlong(Run(edits), h, top.path, to);
  }

  /** Where the places are that the two renames move. */
  lemma PlacesRenamed(a: string, b: string, c: string, w: string)
    requires b != c && a != w
    ensures Siblings([a, b], [a, c]) && Siblings([a], [w]) && Parent([a, c]) == [a] && Parent([w]) == []
    ensures Moved([a, b], [a, c], [a, b]) == [a, c] && Moved([a, b], [a, c], [a]) == [a]
    ensures Moved([a], [w], [a]) == [w] && Moved([a], [w], [a, c]) == [w, c]
    ensures !Covers([a, b], [a]) && !Covers([a, b], [a, c]) && !Covers([a], [w]) && !Covers([w], [a, b])
    ensures [w, b] != [w, c] && [a, b] != [w, c] && [a] != [w] && [w] != [w, b] && [a, b] != [w]
  {
    assert [a, b][1] != [a, c][1] && [w, b][1] != [w, c][1] && [a][0] != [w][0] && [a, b][0] != [w, c][0];
    assert Parent([a, b]) == [a] && Parent([a]) == [];
  }

  /** Project `b` in `a` is renamed to `c`. */
  lemma RenamedOnce(a: string, b: string, c: string) returns (edits: seq<Edit>, top: Folder, h: Folder)
    requires ValidSegment(a) && ValidSegment(b) && ValidSegment(c) && b != c
    ensures RenamesOnly(edits) && Live(Run(edits)) == {[a], [a, c]}
    ensures top in Run(edits) && top.path == [a] && top.renamedFrom == []
    ensures h in Run(edits) && h.path == [a, c] && h.renamedFrom == [[a, b]]
  {
    edits, top, h := MakesTwo(a, b);
    PlacesRenamed(a, b, c, a + "-");
    edits, h := RenamesBelow(edits, top, h, [a, c]);
    assert Live(Run(edits)) == {[a], [a, c]};
  }

  /**
   A link does not outlast a rename further up: once `a` is renamed to `w` as well,
   a link to `a/b` is led to `w/b`, which is no project, while its row is at `w/c`
   with that very alias.
   */
  lemma RenamedTwiceLost(a: string, b: string, c: string, w: string) returns (edits: seq<Edit>, h: Folder)
    requires ValidSegment(a) && ValidSegment(b) && ValidSegment(c) && ValidSegment(w) && b != c && a != w
    ensures RenamesOnly(edits) && h in Run(edits) && h.path == [w, c] && h.renamedFrom == [[a, b]]
    ensures RenamedPath(Run(edits), [a, b]) == Some([w, b]) && [w, b] !in Live(Run(edits))
  {
    var top;
    edits, top, h := RenamedOnce(a, b, c);
    PlacesRenamed(a, b, c, w);
    edits, top, h := RenamesAbove(edits, top, h, [w]);
    assert Live(Run(edits)) == {[w], [w, c]};
    assert top.renamedFrom == [[a]];
    RunsAreWellFormed(edits);
    TopAnswers(Run(edits), top, a, b, c, w);
  }

  /** A row with everything at or under it comes first. */
  lemma TopRowAnswers(folders: seq<Folder>, top: Folder, path: Path)
    requires WellFormed(folders) && top in folders && forall p <- Live(folders) :: Covers(top.path, p)
    requires AliasHit(top.renamedFrom, top.path, path).Some? && path !in Live(folders)
    ensures RenamedPath(folders, path) == AliasHit(top.renamedFrom, top.path, path)
  {
    forall h <- folders ensures !PathLess(h.path, top.path) {
      assert h.path in Live(folders);
      NoneBefore(top.path, h.path);
    }
    FirstHitAt(folders, path, top);
  }

  lemma LedBelow(a: string, b: string, w: string)
    ensures AliasHit([[a]], [w], [a, b]) == Some([w, b])
  {
    HitAppend([], [a], [w], [a, b]);
    assert [] + [[a]] == [[a]] && [w] + [a, b][1..] == [w, b];
  }

  lemma TopAnswers(folders: seq<Folder>, top: Folder, a: string, b: string, c: string, w: string)
    requires WellFormed(folders) && a != w && b != c && Live(folders) == {[w], [w, c]}
    requires top in folders && top.path == [w] && top.renamedFrom == [[a]]
    ensures RenamedPath(folders, [a, b]) == Some([w, b]) && [w, b] !in Live(folders)
  {
    PlacesRenamed(a, b, c, w);
    LedBelow(a, b, w);
    TopRowAnswers(folders, top, [a, b]);
  }
}
