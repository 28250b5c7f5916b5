/**
 Places in the project tree. The source keeps a place as text, `ops/yard`, and
 compares text; here it is the sequence of its segments, `[]` for the whole
 site, and one place covers another when it is a prefix of it (Dafny's `<=` on
 sequences). The lemmas at the end tie the two readings together.
 */
module Paths {
  import opened Text
  import opened Slug

  type Path = seq<string>

  predicate ValidPath(p: Path) {
    forall segment <- p :: ValidSegment(segment)
  }

  predicate Covers(prefix: Path, path: Path) {
    prefix <= path
  }

  function Parent(p: Path): Path
    requires p != []
  {
    p[..|p| - 1]
  }

  function Last(p: Path): string
    requires p != []
  {
    p[|p| - 1]
  }

  /** Where a place goes when what is at `from` moves to `to`. */
  function Moved(from: Path, to: Path, p: Path): (q: Path)
    ensures Covers(from, p) ==> Covers(to, q)
    ensures !Covers(from, p) ==> q == p
  {
    if Covers(from, p) then to + p[|from|..] else p
  }

  /** `to` is another name beside `from`: what a rename in place asks for. */
  ghost predicate Siblings(from: Path, to: Path) {
    && from != [] && to != [] && from != to
    && |from| == |to|
    && Parent(from) == Parent(to)
  }

  /** Neither place is inside the other, nor the same. */
  predicate Apart(from: Path, to: Path) {
    !Covers(from, to) && !Covers(to, from)
  }

  /** Two places trade names, with everything below them. */
  function Swapped(from: Path, to: Path, p: Path): Path {
    if Covers(from, p) then Moved(from, to, p) else Moved(to, from, p)
  }

  /** Prefixes of one place are ordered by their length. */
  lemma PrefixesChain(a: Path, b: Path, path: Path)
    requires Covers(a, path) && Covers(b, path)
    ensures |a| <= |b| <==> Covers(a, b)
  {
    assert forall i | 0 <= i < |a| && i < |b| :: a[i] == path[i] == b[i];
  }

  /** Moving away and back changes nothing. */
  lemma MovedBack(from: Path, to: Path, p: Path)
    requires Covers(from, p)
    ensures Moved(to, from, Moved(from, to, p)) == p
  {
    var q := to + p[|from|..];
    assert q[|to|..] == p[|from|..];
    assert p == from + p[|from|..];
  }

  lemma SiblingsApart(from: Path, to: Path)
    requires Siblings(from, to)
    ensures Apart(from, to) && from == Parent(from) + [Last(from)] && to == Parent(from) + [Last(to)]
  {
    assert from == Parent(from) + [Last(from)];
    assert to == Parent(to) + [Last(to)];
  }

  /** Trading names with a sibling renames one segment and nothing else. */
  lemma SwappedSegments(from: Path, to: Path, p: Path)
    requires Siblings(from, to)
    ensures |Swapped(from, to, p)| == |p|
    ensures forall i | 0 <= i < |p| && i != |from| - 1 :: Swapped(from, to, p)[i] == p[i]
    ensures |p| >= |from| ==> Swapped(from, to, p)[|from| - 1] ==
                              if Covers(from, p) then Last(to)
                              else if Covers(to, p) then Last(from)
                              else p[|from| - 1]
  {
    SiblingsApart(from, to);
    if Covers(from, p) {
      assert forall i | 0 <= i < |from| - 1 :: p[i] == from[i] == Parent(from)[i];
    } else if Covers(to, p) {
      assert forall i | 0 <= i < |from| - 1 :: p[i] == to[i] == Parent(to)[i];
    }
  }

  /** So it keeps who covers whom, and doing it twice undoes it. */
  lemma SwappedKeepsCovers(from: Path, to: Path, p: Path, q: Path)
    requires Siblings(from, to)
    ensures Covers(p, q) <==> Covers(Swapped(from, to, p), Swapped(from, to, q))
    ensures Swapped(from, to, Swapped(from, to, p)) == p
  {
    SwappedTwice(from, to, p);
    SwappedTwice(from, to, q);
    if Covers(p, q) {
      SwappedCovers(from, to, p, q);
    }
    if Covers(Swapped(from, to, p), Swapped(from, to, q)) {
      SwappedCovers(from, to, Swapped(from, to, p), Swapped(from, to, q));
    }
  }

  lemma SwappedTwice(from: Path, to: Path, p: Path)
    requires Siblings(from, to)
    ensures Swapped(from, to, Swapped(from, to, p)) == p
  {
    SiblingsApart(from, to);
    if Covers(from, p) {
      PrefixesApart(from, to, Moved(from, to, p));
      MovedBack(from, to, p);
    } else if Covers(to, p) {
      MovedBack(to, from, p);
    }
  }

  lemma PrefixesApart(from: Path, to: Path, p: Path)
    requires Apart(from, to)
    ensures !(Covers(from, p) && Covers(to, p))
  {
    if Covers(from, p) && Covers(to, p) {
      PrefixesChain(from, to, p);
    }
  }

  lemma SwappedCovers(from: Path, to: Path, p: Path, q: Path)
    requires Siblings(from, to)
    requires Covers(p, q)
    ensures Covers(Swapped(from, to, p), Swapped(from, to, q))
  {
    SwappedSegments(from, to, p);
    SwappedSegments(from, to, q);
    if |p| >= |from| {
      assert Covers(from, p) <==> Covers(from, q) by { CoversThrough(from, p, q); }
      assert Covers(to, p) <==> Covers(to, q) by { CoversThrough(to, p, q); }
    }
    var k := |from| - 1;
    assert forall i | 0 <= i < |p| && i != k :: Swapped(from, to, p)[i] == Swapped(from, to, q)[i];
    assert k < |p| ==> Swapped(from, to, p)[k] == Swapped(from, to, q)[k];
  }

  lemma CoversThrough(a: Path, p: Path, q: Path)
    requires Covers(p, q)
    ensures Covers(a, p) <==> Covers(a, q) && |a| <= |p|
  {
    if Covers(a, q) && |a| <= |p| {
      PrefixesChain(a, p, q);
    }
  }

  /** With nothing at `to`, moving and trading names are the same. */
  lemma SwappedIsMoved(from: Path, to: Path, p: Path)
    requires !Covers(to, p)
    ensures Swapped(from, to, p) == Moved(from, to, p)
  {
  }

  // The text of a place, and the source's tests on it.

  function Written(p: Path): string {
    Join(p, "/")
  }

  /** `prefix_covers` (src/accounts/users.rs). */
  predicate PrefixCovers(prefix: string, path: string) {
    prefix == "" || path == prefix || StartsWith(path, prefix + "/")
  }

  lemma SegmentsHoldNoSlash(p: Path)
    requires ValidPath(p)
    ensures forall segment <- p :: segment != "" && '/' !in segment
  {
  }

  /** The text of a place says which place it is. */
  lemma WrittenRoundTrip(p: Path)
    requires ValidPath(p)
    ensures p != [] ==> Split(Written(p), '/') == p
    ensures Written(p) == "" <==> p == []
  {
    SegmentsHoldNoSlash(p);
    if p != [] {
      SplitJoin(p, '/');
      assert p[0] in p;
    }
  }

  lemma WrittenBelow(p: Path, q: Path)
    requires p != [] && Covers(p, q) && p != q
    ensures Written(q) == Written(p) + "/" + Written(q[|p|..])
  {
    assert q == p + q[|p|..];
    JoinAppend(p, q[|p|..], "/");
  }

  /** The string test is the segment test, for every two places. */
  lemma PrefixCoversIsCovers(p: Path, q: Path)
    requires ValidPath(p) && ValidPath(q)
    ensures PrefixCovers(Written(p), Written(q)) <==> Covers(p, q)
  {
    WrittenRoundTrip(p);
    WrittenRoundTrip(q);
    if Covers(p, q) {
      if p != [] && p != q {
        WrittenBelow(p, q);
      }
    } else if StartsWith(Written(q), Written(p) + "/") {
      var tail := Written(q)[|Written(p)| + 1..];
      assert Written(q) == Written(p) + "/" + tail;
      SegmentsHoldNoSlash(p);
      SplitAfter(p, '/', tail);
    }
  }

  /** Among places over one place, the shortest text is the outermost place. */
  lemma WrittenLengthOrdersPrefixes(p: Path, q: Path, path: Path)
    requires ValidPath(p) && ValidPath(q)
    requires Covers(p, path) && Covers(q, path)
    ensures |Written(p)| <= |Written(q)| <==> |p| <= |q|
  {
    PrefixesChain(p, q, path);
    PrefixesChain(q, p, path);
    if |p| < |q| {
      WrittenLonger(p, q);
    } else if |q| < |p| {
      WrittenLonger(q, p);
    } else {
      assert p == q;
    }
  }

  lemma WrittenLonger(p: Path, q: Path)
    requires ValidPath(p) && ValidPath(q)
    requires Covers(p, q) && p != q
    ensures |Written(p)| < |Written(q)|
  {
    WrittenRoundTrip(p);
    WrittenRoundTrip(q);
    if p != [] {
      WrittenBelow(p, q);
    }
  }

  /** `format!("{to}/{rest}")` of a stripped text is the text of the moved place. */
  lemma MovedWritten(from: Path, to: Path, p: Path)
    requires from != [] && to != []
    ensures p == from ==> Moved(from, to, p) == to
    ensures Covers(from, p) && p != from ==>
              && StartsWith(Written(p), Written(from) + "/")
              && Written(Moved(from, to, p)) == Written(to) + "/" + Written(p)[|Written(from)| + 1..]
  {
    if Covers(from, p) && p != from {
      WrittenBelow(from, p);
      var rest := p[|from|..];
      assert Moved(from, to, p)[|to|..] == rest;
      WrittenBelow(to, Moved(from, to, p));
      assert Written(p)[|Written(from)| + 1..] == Written(rest);
    } else if p == from {
      assert Moved(from, to, p) == to;
    }
  }
}
