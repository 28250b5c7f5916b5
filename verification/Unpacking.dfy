/**
 What becomes of a bundle's entries (src/content/bundle.rs, src/content/store.rs),
 said of the entries, their paths and sizes: which files are handed over and as
 what, in which order, what is left out and why.
 */
module Unpacking {
  import opened Wrappers
  import opened Text
  import opened Slug
  import opened Bundle

  // --- how a path is read ---

  /** The same text, but for which way its slashes lean. */
  predicate SameButSlashes(a: string, b: string) {
    |a| == |b| && forall i | 0 <= i < |a| :: a[i] == b[i] || (a[i] in {'/', '\\'} && b[i] in {'/', '\\'})
  }

  /** An entry lands where its path says on every system: slashes either way, and any `./` in front, come to the same. */
  lemma LandingIgnoresStyle(entry: Entry, other: Entry)
    requires entry.path.Ok? && other.path.Ok?
    ensures SameButSlashes(entry.path.value, other.path.value) ==> Landing(entry) == Landing(other)
    ensures other.path.value == "./" + entry.path.value ==> Landing(other) == Landing(entry)
    ensures '\\' !in entry.path.value && !StartsWith(entry.path.value, "./") ==> Landing(entry) == entry.path.value
  {
    var a, b := entry.path.value, other.path.value;
    if SameButSlashes(a, b) {
      assert Slashed(a) == Slashed(b);
    }
    if b == "./" + a {
      assert Slashed(b) == "./" + Slashed(a);
      assert Slashed(b)[2..] == Slashed(a);
    }
    if '\\' !in a {
      assert Slashed(a) == a;
    }
  }

  // --- which bundles are refused ---

  /** A regular file with a path that cannot be read, could climb, or is no accepted one and not just hidden. */
  ghost predicate Forbidden(entry: Entry) {
    && entry.kind == Regular
    && (entry.path.Err?
        || (Landing(entry) != "" && !ValidAssetPath(Landing(entry))
            && (Climbs(Landing(entry)) || "." in Split(Landing(entry), '/')
                || forall segment <- Split(Landing(entry), '/') :: segment == "" || segment[0] != '.')))
  }

  lemma RejectedExactly(entry: Entry)
    ensures ClassifyEntry(entry).Reject? <==> Forbidden(entry)
  {
    if entry.path.Ok? && ValidAssetPath(Landing(entry)) {
      AssetPathsNeverClimb(Landing(entry));
    }
  }

  /**
   A bundle is taken at all exactly when it can be read to its end, no entry of it
   is forbidden, and it has 1 to 2000 files that claim no more than 128 MiB.
   */
  lemma BundlesThatFit(archive: Archive)
    ensures Fits(archive) <==>
            && archive.Readable?
            && (forall item <- archive.items :: item.Whole? && !Forbidden(item.entry))
            && 1 <= |Paths(archive.items)| <= 2000 && Total(archive.items) <= 134217728
  {
    if archive.Readable? {
      forall item <- archive.items ensures Acceptable(item) <==> item.Whole? && !Forbidden(item.entry) {
        if item.Whole? {
          RejectedExactly(item.entry);
        }
      }
    }
  }

  // --- the directory that comes off ---

  /** Every path is inside this one directory. */
  ghost predicate AllUnder(paths: seq<string>, directory: string) {
    '/' !in directory && paths != [] && forall path <- paths :: StartsWith(path, directory + "/")
  }

  /** Where a path of the bundle goes: without the one directory all of them are in, else as it is. */
  ghost predicate LandsAt(paths: seq<string>, path: string, rel: string) {
    if exists directory :: AllUnder(paths, directory) then
      exists directory :: AllUnder(paths, directory) && path == directory + "/" + rel
    else rel == path
  }

  lemma OneDirectory(paths: seq<string>, directory: string)
    requires AllUnder(paths, directory)
    ensures StripPrefix(paths) == Some(directory)
  {
    assert paths[0] in paths;
    UnderTop(paths[0], directory);
    SplitNone("index.html", '/');
    forall path <- paths ensures path != "index.html" {
      UnderTop(path, directory);
    }
  }

  lemma StrippedIsAbove(paths: seq<string>)
    requires StripPrefix(paths).Some?
    ensures AllUnder(paths, StripPrefix(paths).value)
  {
    assert Top(paths[0]) in Split(paths[0], '/');
  }

  /** There is one such place for every path, and it is what is left below the directory stripped. */
  lemma LandsBelow(paths: seq<string>, path: string, rel: string)
    requires path in paths
    ensures LandsAt(paths, path, rel) <==> rel == Below(StripPrefix(paths), path)
  {
    if StripPrefix(paths).Some? {
      var top := StripPrefix(paths).value;
      StrippedIsAbove(paths);
      UnderTop(path, top);
      if LandsAt(paths, path, rel) {
        var directory :| AllUnder(paths, directory) && path == directory + "/" + rel;
        OneDirectory(paths, directory);
        assert path[|directory| + 1..] == rel;
      }
      if rel == Below(Some(top), path) {
        assert AllUnder(paths, top) && path == top + "/" + rel;
      }
    } else {
      forall directory ensures !AllUnder(paths, directory) {
        if AllUnder(paths, directory) {
          OneDirectory(paths, directory);
        }
      }
    }
  }

  /** The check of keys, over the places the files go to. */
  lemma KeysFitWhereTheyLand(paths: seq<string>, slug: string)
    requires forall path <- paths :: ValidAssetPath(path)
    ensures KeysFit(paths, slug) <==> forall path, rel | path in paths && LandsAt(paths, path, rel) :: ValidKey(slug + "/" + rel)
  {
    forall path <- paths ensures Below(StripPrefix(paths), path) != "" {
      BelowIsAccepted(paths, path);
    }
    forall path, rel | path in paths ensures LandsAt(paths, path, rel) <==> rel == Below(StripPrefix(paths), path) {
      LandsBelow(paths, path, rel);
    }
  }

  // --- the platform's own files ---

  /** The platform's: a sidecar's extension at the end, or the handler or database right inside a top directory. */
  ghost predicate IsPlatforms(path: string) {
    || (exists extension <- ["meta", "notes", "icon", "source", "secrets", "jobs", "migrations", "exports", "deploys", "devices",
                             "repo", "tools"] :: EndsWith(path, "." + extension))
    || (exists directory, name :: '/' !in directory && '/' !in name && path == directory + "/" + name && IsReserved(name))
  }

  predicate IsReserved(name: string) {
    name == "handler.wasm" || name == "data.db" || StartsWith(name, "data.db-")
  }

  lemma PlatformFilesAre(path: string)
    ensures PlatformFile(path) <==> IsPlatforms(path)
  {
    SidecarsAnywhere(path);
    var parts := Split(path, '/');
    JoinSplit(path, '/');
    if |parts| == 2 {
      assert path == parts[0] + "/" + parts[1];
      SidecarOrReserved(path, parts[0], parts[1]);
      forall directory, name | '/' !in directory && '/' !in name && path == directory + "/" + name
        ensures name == parts[1]
      {
        SplitFirst(directory, '/', name);
        SplitNone(name, '/');
      }
    } else {
      forall directory, name | '/' !in directory && '/' !in name ensures path != directory + "/" + name {
        SplitFirst(directory, '/', name);
        SplitNone(name, '/');
      }
    }
  }

  lemma SidecarOrReserved(path: string, directory: string, name: string)
    requires Split(path, '/') == [directory, name] && path == directory + "/" + name
    ensures PlatformFile(path) <==> IsReserved(name) || exists extension <- SIDECAR_EXTENSIONS :: EndsWith(path, "." + extension)
  {
    SidecarEnds();
    forall extension <- SIDECAR_EXTENSIONS
      ensures EndsWith(path, "." + extension) <==> '.' in name && Bundle.Last(Split(name, '.')) == extension
    {
      EndsInPart(name, '.', extension);
      NameEnds(path, "." + extension);
    }
  }

  // --- from an entry to its handing ---

  /** Entry `i` is a file that goes to this path: a regular one, its path accepted, and not the platform's there. */
  ghost predicate GoesTo(items: seq<Item>, slug: string, i: int, rel: string) {
    && 0 <= i < |items| && items[i].Whole? && items[i].entry.kind == Regular && items[i].entry.path.Ok?
    && ValidAssetPath(Landing(items[i].entry)) && LandsAt(Paths(items), Landing(items[i].entry), rel)
    && !IsPlatforms(slug + "/" + rel)
  }

  /** What is handed over for it: its own bytes, and the length it claims. */
  function HandingOf(entry: Entry, rel: string): Handing {
    Handing(rel, if entry.size.Some? then entry.size.value else 0, entry.content)
  }

  /** The entries handed over, in order. */
  ghost function HandedEntries(items: seq<Item>, top: Option<string>, slug: string): (entries: seq<nat>)
    ensures forall i <- entries :: i < |items|
  {
    if items == [] then [] else
    var n := |items| - 1;
    HandedEntries(items[..n], top, slug) + if items[n].Whole? && OutcomeOf(items[n].entry, top, slug).Hand? then [n] else []
  }

  predicate Ascends(entries: seq<nat>) {
    forall j, k | 0 <= j < k < |entries| :: entries[j] < entries[k]
  }

  lemma AscendsWithOneMore(entries: seq<nat>, n: nat)
    requires Ascends(entries) && forall i <- entries :: i < n
    ensures Ascends(entries + [n])
  {
    assert forall j | 0 <= j < |entries| :: entries[j] in entries;
  }

  lemma {:induction false} EntriesAscend(items: seq<Item>, top: Option<string>, slug: string)
    ensures Ascends(HandedEntries(items, top, slug)) && |HandedEntries(items, top, slug)| == |Handings(items, top, slug)|
  {
    if items != [] {
      EntriesAscend(items[..|items| - 1], top, slug);
      AscendsWithOneMore(HandedEntries(items[..|items| - 1], top, slug), |items| - 1);
    }
  }

  lemma {:induction false} EntriesHand(items: seq<Item>, top: Option<string>, slug: string, j: nat)
    requires |HandedEntries(items, top, slug)| == |Handings(items, top, slug)| && j < |HandedEntries(items, top, slug)|
    ensures HandedAs(items, top, slug, Handings(items, top, slug)[j], HandedEntries(items, top, slug)[j])
  {
    var n := |items| - 1;
    EntriesAscend(items[..n], top, slug);
    var before, handed := HandedEntries(items[..n], top, slug), Handings(items[..n], top, slug);
    if j < |before| {
      EntriesHand(items[..n], top, slug, j);
      assert HandedAs(items[..n], top, slug, handed[j], before[j]);
    }
  }

  lemma {:induction false} EntriesAre(items: seq<Item>, top: Option<string>, slug: string, i: nat)
    requires i < |items| && items[i].Whole? && OutcomeOf(items[i].entry, top, slug).Hand?
    ensures i in HandedEntries(items, top, slug)
  {
    if i < |items| - 1 {
      EntriesAre(items[..|items| - 1], top, slug, i);
    }
  }

  /** In what the outcome of an entry comes to, whatever it is. */
  lemma OutcomeIs(archive: Archive, slug: string, i: nat, rel: string)
    requires Fits(archive) && i < |archive.items| && archive.items[i].Whole?
    ensures var items := archive.items;
            var outcome := OutcomeOf(items[i].entry, StripPrefix(Paths(items)), slug);
            && (GoesTo(items, slug, i, rel) ==> outcome == Hand(HandingOf(items[i].entry, rel)))
            && (outcome.Hand? ==> GoesTo(items, slug, i, outcome.handing.path))
  {
    var items, entry := archive.items, archive.items[i].entry;
    assert Acceptable(items[i]);
    TakenExactly(entry);
    if Taken(items[i]) {
      PathsOf(items, i);
      var path := ClassifyEntry(entry).path;
      var below := Below(StripPrefix(Paths(items)), path);
      BelowIsAccepted(Paths(items), path);
      LandsBelow(Paths(items), path, rel);
      LandsBelow(Paths(items), path, below);
      PlatformFilesAre(slug + "/" + below);
    }
  }

  /**
   These are a bundle's files, as they are handed over: in the archive's order, one
   for each regular file whose path is accepted and is not the platform's where it
   goes, with the directory they are all in gone if there is one, and the entry's
   own bytes and length.
   */
  ghost predicate IsFiles(items: seq<Item>, slug: string, handings: seq<Handing>, entries: seq<nat>) {
    && |entries| == |handings| && Ascends(entries)
    && (forall i, rel | GoesTo(items, slug, i, rel) :: i in entries)
    && (forall j | 0 <= j < |entries| ::
          && GoesTo(items, slug, entries[j], handings[j].path)
          && handings[j] == HandingOf(items[entries[j]].entry, handings[j].path))
  }

  ghost predicate FilesOf(items: seq<Item>, slug: string, handings: seq<Handing>) {
    exists entries: seq<nat> :: IsFiles(items, slug, handings, entries)
  }

  lemma FilesAreHandedOver(archive: Archive, slug: string)
    requires Fits(archive)
    ensures FilesOf(archive.items, slug, Handings(archive.items, StripPrefix(Paths(archive.items)), slug))
  {
    var items := archive.items;
    var top := StripPrefix(Paths(items));
    EntriesAscend(items, top, slug);
    var entries, handings := HandedEntries(items, top, slug), Handings(items, top, slug);
    forall i, rel | GoesTo(items, slug, i, rel) ensures i in entries {
      OutcomeIs(archive, slug, i, rel);
      EntriesAre(items, top, slug, i);
    }
    forall j | 0 <= j < |entries|
      ensures GoesTo(items, slug, entries[j], handings[j].path)
      ensures handings[j] == HandingOf(items[entries[j]].entry, handings[j].path)
    {
      EntriesHand(items, top, slug, j);
      OutcomeIs(archive, slug, entries[j], handings[j].path);
    }
    assert IsFiles(items, slug, handings, entries);
  }

  // --- what is left out ---

  /** Why an entry is left out: links and special files, names that start with a dot, and the platform's own files. */
  ghost predicate LeftOutFor(items: seq<Item>, slug: string, i: int, reason: string) {
    && 0 <= i < |items| && items[i].Whole?
    && var entry := items[i].entry;
       || (entry.kind == Special && reason == "symlinks and special files")
       || (entry.kind == Regular && entry.path.Ok? && reason == "dotfiles"
           && Landing(entry) != "" && !Climbs(Landing(entry)) && "." !in Split(Landing(entry), '/')
           && exists segment <- Split(Landing(entry), '/') :: segment != "" && segment[0] == '.')
       || (entry.kind == Regular && entry.path.Ok? && ValidAssetPath(Landing(entry)) && reason == PLATFORM_REASON
           && exists rel :: LandsAt(Paths(items), Landing(entry), rel) && IsPlatforms(slug + "/" + rel))
  }

  ghost predicate Leaves(items: seq<Item>, top: Option<string>, slug: string, i: int, reason: string) {
    0 <= i < |items| && items[i].Whole? && OutcomeOf(items[i].entry, top, slug) == Leave(reason)
  }

  lemma LeavesOneMore(items: seq<Item>, front: seq<Item>, top: Option<string>, slug: string, reason: string)
    requires items != [] && front == items[..|items| - 1]
    ensures (exists i :: Leaves(items, top, slug, i, reason)) <==>
            Leaves(items, top, slug, |items| - 1, reason) || exists i :: Leaves(front, top, slug, i, reason)
  {
    forall i | i < |items| - 1 ensures Leaves(items, top, slug, i, reason) <==> Leaves(front, top, slug, i, reason) {
    }
  }

  lemma {:induction false} ReasonsOf(items: seq<Item>, top: Option<string>, slug: string, reason: string)
    ensures reason in Reasons(items, top, slug) <==> exists i :: Leaves(items, top, slug, i, reason)
  {
    if items != [] {
      LeavesOneMore(items, items[..|items| - 1], top, slug, reason);
      ReasonsOf(items[..|items| - 1], top, slug, reason);
    }
  }

  predicate Distinct(reasons: seq<string>) {
    forall j, k | 0 <= j < k < |reasons| :: reasons[j] != reasons[k]
  }

  lemma {:induction false} ReasonsOnce(items: seq<Item>, top: Option<string>, slug: string)
    ensures Distinct(Reasons(items, top, slug))
  {
    if items != [] {
      ReasonsOnce(items[..|items| - 1], top, slug);
    }
  }

  lemma LeavesFor(archive: Archive, slug: string, i: nat, reason: string)
    requires Fits(archive) && i < |archive.items| && archive.items[i].Whole?
    ensures var items := archive.items;
            OutcomeOf(items[i].entry, StripPrefix(Paths(items)), slug) == Leave(reason) <==> LeftOutFor(items, slug, i, reason)
  {
    var items, entry := archive.items, archive.items[i].entry;
    assert Acceptable(items[i]);
    TakenExactly(entry);
    if Taken(items[i]) {
      PathsOf(items, i);
      var path := ClassifyEntry(entry).path;
      var below := Below(StripPrefix(Paths(items)), path);
      BelowIsAccepted(Paths(items), path);
      LandsBelow(Paths(items), path, below);
      PlatformFilesAre(slug + "/" + below);
      forall rel | LandsAt(Paths(items), path, rel) ensures rel == below {
        LandsBelow(Paths(items), path, rel);
      }
      forall segment <- Split(path, '/') ensures segment == "" || segment[0] != '.' {
        assert ValidAssetSegment(segment);
      }
    }
  }

  /** What the answer says was left out is exactly why something was, each reason once. */
  lemma LeftOutIsReported(archive: Archive, slug: string, reason: string)
    requires Fits(archive)
    ensures reason in Reasons(archive.items, StripPrefix(Paths(archive.items)), slug) <==>
            exists i :: LeftOutFor(archive.items, slug, i, reason)
    ensures Distinct(Reasons(archive.items, StripPrefix(Paths(archive.items)), slug))
  {
    var items := archive.items;
    var top := StripPrefix(Paths(items));
    ReasonsOf(items, top, slug, reason);
    ReasonsOnce(items, top, slug);
    forall i ensures Leaves(items, top, slug, i, reason) <==> LeftOutFor(items, slug, i, reason) {
      if 0 <= i < |items| {
        assert Acceptable(items[i]);
        LeavesFor(archive, slug, i, reason);
      }
    }
  }

  // --- what is safe ---

  /**
   Whatever a bundle holds, each path handed over is a key a store keeps, none
   of the platform's own files, and where a path of the archive lands.
   */
  lemma HandedAreSafe(archive: Archive, slug: string, h: Handing)
    requires Fits(archive) && KeysFit(Paths(archive.items), slug)
    requires h in Handings(archive.items, StripPrefix(Paths(archive.items)), slug)
    ensures ValidAssetPath(h.path) && ValidKey(slug + "/" + h.path) && !IsPlatforms(slug + "/" + h.path)
    ensures ".." !in Split(h.path, '/')
    ensures exists path <- Paths(archive.items) :: LandsAt(Paths(archive.items), path, h.path)
  {
    var paths := Paths(archive.items);
    var top := StripPrefix(paths);
    HandedFrom(archive.items, top, slug, h);
    var i :| HandedAs(archive.items, top, slug, h, i);
    PathsOf(archive.items, i);
    var path := ClassifyEntry(archive.items[i].entry).path;
    BelowIsAccepted(paths, path);
    AssetPathsNeverClimb(h.path);
    PlatformFilesAre(slug + "/" + h.path);
    LandsBelow(paths, path, h.path);
  }

  // --- the store, and the unpacking ---

  /** Where the files go: a store that may refuse any of them. What it was called with is kept in order. */
  class Sink {
    var calls: seq<Handing>
    const accepts: (seq<Handing>, Handing) -> bool

    constructor (accepts: (seq<Handing>, Handing) -> bool)
      ensures calls == [] && this.accepts == accepts
    {
      calls := [];
      this.accepts := accepts;
    }

    method Take(h: Handing) returns (ok: bool)
      modifies this`calls
      ensures calls == old(calls) + [h]
      ensures ok == accepts(old(calls), h)
    {
      ok := accepts(calls, h);
      calls := calls + [h];
    }
  }

  predicate AscendingText(names: seq<string>) {
    forall i, j | 0 <= i < j < |names| :: !TextLess(names[j], names[i])
  }

  /** `written.sort()`. */
  function SortedText(names: seq<string>): (sorted: seq<string>)
    ensures multiset(sorted) == multiset(names)
    ensures AscendingText(sorted)
  {
    if names == [] then [] else
    assert names == [names[0]] + names[1..];
    InsertedText(names[0], SortedText(names[1..]))
  }

  function InsertedText(name: string, names: seq<string>): (sorted: seq<string>)
    requires AscendingText(names)
    ensures multiset(sorted) == multiset(names) + multiset{name}
    ensures AscendingText(sorted)
  {
    if names == [] then [name]
    else if !TextLess(names[0], name) then
      assert AscendingText([name] + names) by { FrontTextAscending(name, names); }
      [name] + names
    else
      assert names == [names[0]] + names[1..];
      var below := InsertedText(name, names[1..]);
      assert AscendingText([names[0]] + below) by { RestTextAscending(name, names, below); }
      [names[0]] + below
  }

  lemma FrontTextAscending(name: string, names: seq<string>)
    requires names != [] && AscendingText(names) && !TextLess(names[0], name)
    ensures AscendingText([name] + names)
  {
    forall j | 0 <= j < |names| ensures !TextLess(names[j], name) {
      TextLessTotal(names[0], names[j]);
      TextLessTotal(names[0], name);
      TextLessTotal(names[j], name);
      if TextLess(names[j], name) && TextLess(names[0], names[j]) {
        TextLessTransitive(names[0], names[j], name);
      }
    }
  }

  lemma RestTextAscending(name: string, names: seq<string>, below: seq<string>)
    requires names != [] && AscendingText(names) && TextLess(names[0], name)
    requires AscendingText(below) && multiset(below) == multiset(names[1..]) + multiset{name}
    ensures AscendingText([names[0]] + below)
  {
    TextLessTotal(names[0], name);
    forall j | 0 <= j < |below| ensures !TextLess(below[j], names[0]) {
      assert below[j] in multiset(names[1..]) + multiset{name};
    }
  }

  datatype Unpacked = Unpacked(files: seq<string>, skipped: seq<string>)

  /** Whether each path, put under the app's own, makes a key. */
  method CheckKeys(paths: seq<string>, slug: string) returns (r: Option<Failure>)
    ensures r == None <==> KeysFit(paths, slug)
    ensures r.Some? ==> r.value.TooLong? && !ValidKey(slug + "/" + r.value.path)
                        && exists path <- paths :: r.value.path == Below(StripPrefix(paths), path)
  {
    var top := StripPrefix(paths);
    var i := 0;
    while i < |paths|
      invariant 0 <= i <= |paths|
      invariant forall j | 0 <= j < i ::
                  Below(top, paths[j]) == "" || ValidKey(slug + "/" + Below(top, paths[j]))
    {
      var rel := Below(top, paths[i]);
      if rel != "" && !ValidKey(slug + "/" + rel) {
        return Some(TooLong(rel));
      }
      i := i + 1;
    }
    return None;
  }

  /** The store took each of these when it was handed it. */
  ghost predicate Accepted(accepts: (seq<Handing>, Handing) -> bool, before: seq<Handing>, handed: seq<Handing>) {
    forall k | 0 <= k < |handed| :: accepts(before + handed[..k], handed[k])
  }

  /** Handed these in turn, the store refused the last. */
  ghost predicate RefusedLast(accepts: (seq<Handing>, Handing) -> bool, before: seq<Handing>, handed: seq<Handing>) {
    && handed != [] && Accepted(accepts, before, handed[..|handed| - 1])
    && !accepts(before + handed[..|handed| - 1], handed[|handed| - 1])
  }

  lemma OneMoreAnswered(accepts: (seq<Handing>, Handing) -> bool, before: seq<Handing>, handed: seq<Handing>, h: Handing)
    requires Accepted(accepts, before, handed)
    ensures if accepts(before + handed, h) then Accepted(accepts, before, handed + [h]) else RefusedLast(accepts, before, handed + [h])
  {
    assert (handed + [h])[..|handed|] == handed;
    forall k | 0 <= k < |handed| ensures accepts(before + (handed + [h])[..k], (handed + [h])[k]) {
      assert (handed + [h])[..k] == handed[..k];
    }
  }

  lemma {:induction false} HandingsGrow(items: seq<Item>, top: Option<string>, slug: string, n: nat)
    requires n <= |items|
    ensures Handings(items[..n], top, slug) <= Handings(items, top, slug)
  {
    if n < |items| {
      var front := items[..|items| - 1];
      HandingsGrow(front, top, slug, n);
      assert front[..n] == items[..n];
    } else {
      assert items[..n] == items;
    }
  }

  lemma OneMoreHanded(items: seq<Item>, top: Option<string>, slug: string)
    requires items != []
    ensures var n := |items| - 1;
            items[n].Whole? && OutcomeOf(items[n].entry, top, slug).Hand? ==>
              var h := OutcomeOf(items[n].entry, top, slug).handing;
              && Handings(items, top, slug) == Handings(items[..n], top, slug) + [h]
              && HandedTotal(Handings(items, top, slug)) == HandedTotal(Handings(items[..n], top, slug)) + h.size
              && HandedPaths(Handings(items, top, slug)) == HandedPaths(Handings(items[..n], top, slug)) + [h.path]
  {
    var n := |items| - 1;
    if items[n].Whole? && OutcomeOf(items[n].entry, top, slug).Hand? {
      HandedAppend(Handings(items[..n], top, slug), OutcomeOf(items[n].entry, top, slug).handing);
    }
  }

  /** One entry of the second pass: the checks the first made are made again, and cannot fail. */
  method HandOne(entry: Entry, top: Option<string>, slug: string, sink: Sink, before: U64)
      returns (ok: bool, total: U64, outcome: Outcome)
    requires !ClassifyEntry(entry).Reject?
    requires OutcomeOf(entry, top, slug).Hand? ==>
               && ValidAssetPath(OutcomeOf(entry, top, slug).handing.path)
               && before + OutcomeOf(entry, top, slug).handing.size <= MAX_BUNDLE_UNPACKED
    modifies sink`calls
    ensures outcome == OutcomeOf(entry, top, slug)
    ensures !outcome.Hand? ==> ok && total == before && sink.calls == old(sink.calls)
    ensures outcome.Hand? ==>
              && total == before + outcome.handing.size
              && sink.calls == old(sink.calls) + [outcome.handing]
              && ok == sink.accepts(old(sink.calls), outcome.handing)
  {
    total, ok := before, true;
    match ClassifyEntry(entry) {
      case Take(path) =>
        var rel := Below(top, path);
        if rel == "" {
          return true, before, Nothing;
        }
        if PlatformFile(slug + "/" + rel) {
          return true, before, Leave(PLATFORM_REASON);
        }
        total := before + SizeOf(entry);
        if total > MAX_BUNDLE_UNPACKED {
          assert false;
        }
        if !ValidAssetPath(rel) {
          assert false;
        }
        outcome := Hand(Handing(rel, SizeOf(entry), entry.content));
        ok := sink.Take(outcome.handing);
      case Ignore =>
        outcome := Nothing;
      case Skip(reason) =>
        outcome := Leave(reason);
    }
  }

  lemma HandMayGo(archive: Archive, slug: string, i: nat)
    requires Fits(archive) && i < |archive.items| && archive.items[i].Whole?
    requires OutcomeOf(archive.items[i].entry, StripPrefix(Paths(archive.items)), slug).Hand?
    ensures var top := StripPrefix(Paths(archive.items));
            var h := OutcomeOf(archive.items[i].entry, top, slug).handing;
            && ValidAssetPath(h.path)
            && HandedTotal(Handings(archive.items[..i], top, slug)) + h.size <= MAX_BUNDLE_UNPACKED
  {
    var items := archive.items;
    var paths := Paths(items);
    assert items[i] in items;
    PathsOf(items, i);
    BelowIsAccepted(paths, ClassifyEntry(items[i].entry).path);
    SecondCeilingHolds(archive, StripPrefix(paths), slug, i + 1);
    assert items[..i + 1][..i] == items[..i];
    OneMoreHanded(items[..i + 1], StripPrefix(paths), slug);
  }

  /** How far the second pass is: what the store was called with, the list kept, the reasons and the sum. */
  ghost predicate Progress(items: seq<Item>, top: Option<string>, slug: string, handed: seq<Handing>,
                           written: seq<string>, skipped: seq<string>, total: nat)
  {
    && handed == Handings(items, top, slug)
    && written == HandedPaths(handed)
    && skipped == Reasons(items, top, slug)
    && total == HandedTotal(handed)
  }

  lemma ProgressStep(items: seq<Item>, top: Option<string>, slug: string, handed: seq<Handing>,
                     written: seq<string>, skipped: seq<string>, total: nat)
    requires items != [] && items[|items| - 1].Whole?
    requires Progress(items[..|items| - 1], top, slug, handed, written, skipped, total)
    ensures match OutcomeOf(items[|items| - 1].entry, top, slug)
            case Hand(h) => Progress(items, top, slug, handed + [h], written + [h.path], skipped, total + h.size)
            case Leave(reason) => Progress(items, top, slug, handed, written, Once(skipped, reason), total)
            case Nothing => Progress(items, top, slug, handed, written, skipped, total)
  {
    OneMoreHanded(items, top, slug);
  }

  lemma ProgressAt(items: seq<Item>, i: nat, top: Option<string>, slug: string, handed: seq<Handing>,
                   written: seq<string>, skipped: seq<string>, total: nat)
    requires i < |items| && items[i].Whole?
    requires Progress(items[..i], top, slug, handed, written, skipped, total)
    ensures match OutcomeOf(items[i].entry, top, slug)
            case Hand(h) => Progress(items[..i + 1], top, slug, handed + [h], written + [h.path], skipped, total + h.size)
            case Leave(reason) => Progress(items[..i + 1], top, slug, handed, written, Once(skipped, reason), total)
            case Nothing => Progress(items[..i + 1], top, slug, handed, written, skipped, total)
  {
    assert items[..i + 1][..i] == items[..i];
    ProgressStep(items[..i + 1], top, slug, handed, written, skipped, total);
  }

  /** No entry of an archive that fits fails the checks made again. */
  lemma MayGoOn(archive: Archive, slug: string, i: nat)
    requires Fits(archive) && i < |archive.items|
    ensures var top := StripPrefix(Paths(archive.items));
            && archive.items[i].Whole? && !ClassifyEntry(archive.items[i].entry).Reject?
            && (OutcomeOf(archive.items[i].entry, top, slug).Hand? ==>
                  var h := OutcomeOf(archive.items[i].entry, top, slug).handing;
                  && ValidAssetPath(h.path)
                  && HandedTotal(Handings(archive.items[..i], top, slug)) + h.size <= MAX_BUNDLE_UNPACKED)
  {
    assert Acceptable(archive.items[i]);
    if OutcomeOf(archive.items[i].entry, StripPrefix(Paths(archive.items)), slug).Hand? {
      HandMayGo(archive, slug, i);
    }
  }

  /** The next entry, and with it the lists one entry further. */
  method HandNext(archive: Archive, slug: string, top: Option<string>, sink: Sink, i: nat, ghost before: seq<Handing>,
                  ghost handed: seq<Handing>, written: seq<string>, skipped: seq<string>, total: U64)
      returns (ok: bool, written': seq<string>, skipped': seq<string>, total': U64, ghost handed': seq<Handing>)
    requires Fits(archive) && i < |archive.items| && top == StripPrefix(Paths(archive.items))
    requires Progress(archive.items[..i], top, slug, handed, written, skipped, total)
    requires sink.calls == before + handed && Accepted(sink.accepts, before, handed)
    modifies sink`calls
    ensures Progress(archive.items[..i + 1], top, slug, handed', written', skipped', total')
    ensures sink.calls == before + handed'
    ensures if ok then Accepted(sink.accepts, before, handed') else RefusedLast(sink.accepts, before, handed')
  {
    MayGoOn(archive, slug, i);
    ProgressAt(archive.items, i, top, slug, handed, written, skipped, total);
    var outcome;
    ok, total', outcome := HandOne(archive.items[i].entry, top, slug, sink, total);
    written', skipped', handed' := written, skipped, handed;
    match outcome {
      case Hand(h) =>
        OneMoreAnswered(sink.accepts, before, handed, h);
        handed', written' := handed + [h], written + [h.path];
      case Leave(reason) =>
        skipped' := Once(skipped, reason);
      case Nothing =>
    }
  }

  /** The store was handed all the bundle's files and took them, and the answer lists them and why others were left out. */
  ghost predicate Delivered(archive: Archive, slug: string, sink: Sink, before: seq<Handing>, handed: seq<Handing>, done: Unpacked)
    requires archive.Readable?
    reads sink
  {
    && FilesOf(archive.items, slug, handed)
    && sink.calls == before + handed && Accepted(sink.accepts, before, handed)
    && AscendingText(done.files) && multiset(done.files) == multiset(HandedPaths(handed))
    && Distinct(done.skipped)
    && forall reason :: reason in done.skipped <==> exists i :: LeftOutFor(archive.items, slug, i, reason)
  }

  /** The store was handed the first of the bundle's files, up to one that it refused. */
  ghost predicate StoppedShort(archive: Archive, slug: string, sink: Sink, before: seq<Handing>, handed: seq<Handing>)
    requires archive.Readable?
    reads sink
  {
    && (exists files :: FilesOf(archive.items, slug, files) && handed <= files)
    && sink.calls == before + handed && RefusedLast(sink.accepts, before, handed)
  }

  lemma AllDelivered(archive: Archive, slug: string, sink: Sink, before: seq<Handing>, handed: seq<Handing>,
                     written: seq<string>, skipped: seq<string>, total: nat)
    requires Fits(archive) && sink.calls == before + handed && Accepted(sink.accepts, before, handed)
    requires Progress(archive.items[..|archive.items|], StripPrefix(Paths(archive.items)), slug, handed, written, skipped, total)
    ensures Delivered(archive, slug, sink, before, handed, Unpacked(SortedText(written), skipped))
  {
    assert archive.items[..|archive.items|] == archive.items;
    FilesAreHandedOver(archive, slug);
    forall reason ensures reason in skipped <==> exists i :: LeftOutFor(archive.items, slug, i, reason) {
      LeftOutIsReported(archive, slug, reason);
    }
    LeftOutIsReported(archive, slug, "");
  }

  lemma Stopped(archive: Archive, slug: string, sink: Sink, before: seq<Handing>, n: nat,
                handed: seq<Handing>, written: seq<string>, skipped: seq<string>, total: nat)
    requires Fits(archive) && n <= |archive.items| && sink.calls == before + handed && RefusedLast(sink.accepts, before, handed)
    requires Progress(archive.items[..n], StripPrefix(Paths(archive.items)), slug, handed, written, skipped, total)
    ensures StoppedShort(archive, slug, sink, before, handed)
  {
    FilesAreHandedOver(archive, slug);
    HandingsGrow(archive.items, StripPrefix(Paths(archive.items)), slug, n);
  }

  method SecondPass(archive: Archive, slug: string, sink: Sink) returns (r: Result<Unpacked, Failure>)
    requires Fits(archive)
    modifies sink`calls
    ensures r.Ok? ==> exists handed :: Delivered(archive, slug, sink, old(sink.calls), handed, r.value)
    ensures r.Err? ==> r.error == SinkFailed && exists handed :: StoppedShort(archive, slug, sink, old(sink.calls), handed)
  {
    var items := archive.items;
    var top := StripPrefix(Paths(items));
    var written: seq<string> := [];
    var skipped: seq<string> := [];
    var total: U64 := 0;
    ghost var handed: seq<Handing> := [];
    var i := 0;
    while i < |items|
      invariant 0 <= i <= |items|
      invariant sink.calls == old(sink.calls) + handed && Accepted(sink.accepts, old(sink.calls), handed)
      invariant Progress(items[..i], top, slug, handed, written, skipped, total)
    {
      var ok;
      ok, written, skipped, total, handed := HandNext(archive, slug, top, sink, i, old(sink.calls), handed, written, skipped, total);
      if !ok {
        Stopped(archive, slug, sink, old(sink.calls), i + 1, handed, written, skipped, total);
        return Err(SinkFailed);
      }
      i := i + 1;
    }
    AllDelivered(archive, slug, sink, old(sink.calls), handed, written, skipped, total);
    return Ok(Unpacked(SortedText(written), skipped));
  }

  /** It can be read to its end, nothing in it is forbidden, it has 1 to 2000 files of 128 MiB at most, and each is a key where it lands. */
  ghost predicate MayBeUnpacked(archive: Archive, slug: string) {
    && archive.Readable?
    && var paths := Paths(archive.items);
       && (forall item <- archive.items :: item.Whole? && !Forbidden(item.entry))
       && 1 <= |paths| <= 2000 && Total(archive.items) <= 134217728
       && forall path, rel | path in paths && LandsAt(paths, path, rel) :: ValidKey(slug + "/" + rel)
  }

  lemma UnpackedExactly(archive: Archive, slug: string)
    ensures MayBeUnpacked(archive, slug) <==> Fits(archive) && KeysFit(Paths(archive.items), slug)
  {
    BundlesThatFit(archive);
    if Fits(archive) {
      KeysFitWhereTheyLand(Paths(archive.items), slug);
    }
  }

  /** Why it is not: the first pass refuses it, or some path is no key where it lands. */
  ghost predicate NotUnpacked(archive: Archive, slug: string, failure: Failure) {
    || RefusedFor(archive, failure)
    || (failure.TooLong? && archive.Readable? && !ValidKey(slug + "/" + failure.path)
        && exists path <- Paths(archive.items) :: LandsAt(Paths(archive.items), path, failure.path))
  }

  /**
   All or nothing: when it fails, unless the store refused a file, the store was
   never called. When it succeeds the store was handed every file, in order.
   */
  method UnpackInto(archive: Archive, slug: string, sink: Sink) returns (r: Result<Unpacked, Failure>)
    modifies sink`calls
    ensures r.Ok? || r.error == SinkFailed <==> MayBeUnpacked(archive, slug)
    ensures r.Err? && r.error != SinkFailed ==> sink.calls == old(sink.calls) && NotUnpacked(archive, slug, r.error)
    ensures r.Ok? ==> exists handed :: Delivered(archive, slug, sink, old(sink.calls), handed, r.value)
    ensures r == Err(SinkFailed) ==> exists handed :: StoppedShort(archive, slug, sink, old(sink.calls), handed)
  {
    UnpackedExactly(archive, slug);
    var first := EntryPaths(archive);
    if first.Err? {
      return Err(first.error);
    }
    var keys := CheckKeys(first.value, slug);
    if keys.Some? {
      forall path <- first.value ensures LandsAt(first.value, path, Below(StripPrefix(first.value), path)) {
        LandsBelow(first.value, path, Below(StripPrefix(first.value), path));
      }
      return Err(keys.value);
    }
    r := SecondPass(archive, slug, sink);
  }
}
