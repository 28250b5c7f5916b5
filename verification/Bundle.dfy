/**
 Unpacking an uploaded bundle (src/content/bundle.rs): the archive is read twice,
 first to check all of it, then to hand its files over. The archive is what the
 decoder makes of it, the same both times.
 */
module Bundle {
  import opened Wrappers
  import opened Text
  import opened Slug

  const MAX_BUNDLE_UNPACKED: nat := 128 * 1024 * 1024
  const MAX_BUNDLE_ENTRIES: nat := 2000
  const U64_MAX: nat := 0xffff_ffff_ffff_ffff

  type U64 = n: nat | n <= U64_MAX

  datatype Kind = Directory | PaxGlobal | LongName | Regular | Special

  datatype Entry = Entry(kind: Kind, path: Result<string, string>, size: Option<U64>, content: string)

  /** What the decoder gives for one entry. */
  datatype Item = Broken(why: string) | Whole(entry: Entry)

  datatype Archive = Unreadable(why: string) | Readable(items: seq<Item>)

  datatype Verdict = Take(path: string) | Ignore | Skip(reason: string) | Reject(message: string)

  datatype Failure =
    | Undecodable(why: string)
    | Rejected(message: string)
    | TooMany
    | TooBig
    | NoFiles
    | TooLong(path: string)
    | SinkFailed

  /** `s.replace('\\', "/")`. */
  function Slashed(s: string): (t: string)
    ensures |t| == |s|
  {
    seq(|s|, i requires 0 <= i < |s| => if s[i] == '\\' then '/' else s[i])
  }

  /** `s.trim_start_matches("./")`. */
  function WithoutDotSlash(s: string): (t: string)
    ensures !StartsWith(t, "./")
  {
    if StartsWith(s, "./") then WithoutDotSlash(s[2..]) else s
  }

  predicate Hidden(segment: string) {
    segment != "" && segment[0] == '.'
  }

  function ClassifyEntry(entry: Entry): (v: Verdict)
    ensures v.Take? ==> entry.kind.Regular? && ValidAssetPath(v.path)
  {
    if entry.kind.Directory? || entry.kind.PaxGlobal? || entry.kind.LongName? then Ignore
    else if !entry.kind.Regular? then Skip("symlinks and special files")
    else if entry.path.Err? then Reject(entry.path.error)
    else
      var rel := WithoutDotSlash(Slashed(entry.path.value));
      var segments := Split(rel, '/');
      if rel == "" then Ignore
      else if rel[0] == '/' || ".." in segments || "." in segments then Reject(rel)
      else if exists segment <- segments :: Hidden(segment) then Skip("dotfiles")
      else if !ValidAssetPath(rel) then Reject(rel)
      else Take(rel)
  }

  const SIDECAR_EXTENSIONS: seq<string> :=
    ["meta", "notes", "icon", "source", "secrets", "jobs", "migrations", "exports", "deploys", "devices", "repo", "tools"]

  function Last(parts: seq<string>): string
    requires parts != []
  {
    parts[|parts| - 1]
  }

  /** A path the platform has to itself: by its extension wherever it is, or by its name at the root. */
  predicate PlatformFile(path: string) {
    var name := Last(Split(path, '/'));
    var sidecar := '.' in name && Last(Split(name, '.')) in SIDECAR_EXTENSIONS;
    var atAppRoot := |Split(path, '/')| == 2;
    sidecar || (atAppRoot && (name == "handler.wasm" || name == "data.db" || StartsWith(name, "data.db-")))
  }

  /** Where an entry's path leads once it is read the same way on every system. */
  function Landing(entry: Entry): string
    requires entry.path.Ok?
  {
    WithoutDotSlash(Slashed(entry.path.value))
  }

  predicate Climbs(path: string) {
    path != "" && (path[0] == '/' || ".." in Split(path, '/'))
  }

  /**
   A file is taken exactly when it is a regular one whose path is accepted; one
   that could climb, or starts at the root, is never just left out.
   */
  lemma TakenExactly(entry: Entry)
    ensures ClassifyEntry(entry).Take? <==> entry.kind.Regular? && entry.path.Ok? && ValidAssetPath(Landing(entry))
    ensures ClassifyEntry(entry).Take? ==> ClassifyEntry(entry).path == Landing(entry)
    ensures entry.kind.Regular? && entry.path.Ok? && Climbs(Landing(entry)) ==> ClassifyEntry(entry).Reject?
    ensures entry.kind == Special ==> ClassifyEntry(entry).Skip?
  {
    if entry.path.Ok? && ValidAssetPath(Landing(entry)) {
      AssetPathsNeverClimb(Landing(entry));
    }
  }

  lemma SidecarEnds()
    ensures forall extension <- SIDECAR_EXTENSIONS :: '.' !in extension && '/' !in extension
  {
  }

  /** A sidecar is a path that ends in a dot and one of the extensions, wherever it is. */
  lemma SidecarsAnywhere(path: string)
    ensures (exists extension <- SIDECAR_EXTENSIONS :: EndsWith(path, "." + extension)) ==> PlatformFile(path)
    ensures PlatformFile(path) && |Split(path, '/')| != 2 ==>
              exists extension <- SIDECAR_EXTENSIONS :: EndsWith(path, "." + extension)
  {
    var name := Last(Split(path, '/'));
    SidecarEnds();
    LastPart(path, '/');
    forall extension <- SIDECAR_EXTENSIONS
      ensures EndsWith(path, "." + extension) <==> '.' in name && Last(Split(name, '.')) == extension
    {
      EndsInPart(name, '.', extension);
      NameEnds(path, "." + extension);
    }
  }

  /** What ends a path without a slash ends its last name. */
  lemma NameEnds(path: string, tail: string)
    requires '/' !in tail
    ensures EndsWith(path, tail) <==> EndsWith(Last(Split(path, '/')), tail)
  {
    var name := Last(Split(path, '/'));
    LastPart(path, '/');
    assert path[|path| - |name|..] == name;
    assert |path| > |name| ==> '/' in path && path[|path| - |name| - 1] == '/' by {
      if '/' !in path {
        SplitNone(path, '/');
      }
    }
  }

  // --- the first pass ---

  function SizeOf(entry: Entry): U64 {
    if entry.size.Some? then entry.size.value else 0
  }

  predicate Taken(item: Item) {
    item.Whole? && ClassifyEntry(item.entry).Take?
  }

  /** The paths taken, in the archive's order. */
  function Paths(items: seq<Item>): (paths: seq<string>)
    ensures forall path <- paths :: ValidAssetPath(path)
  {
    if items == [] then [] else
    var n := |items| - 1;
    Paths(items[..n]) + if Taken(items[n]) then [ClassifyEntry(items[n].entry).path] else []
  }

  /** What they claim to unpack to. */
  function Total(items: seq<Item>): nat {
    if items == [] then 0 else
    var n := |items| - 1;
    Total(items[..n]) + if Taken(items[n]) then SizeOf(items[n].entry) else 0
  }

  predicate Acceptable(item: Item) {
    item.Whole? && !ClassifyEntry(item.entry).Reject?
  }

  /** A bundle that can be unpacked: decoded whole, nothing rejected, within the ceilings, not empty. */
  predicate Fits(archive: Archive) {
    && archive.Readable?
    && (forall item <- archive.items :: Acceptable(item))
    && 1 <= |Paths(archive.items)| <= MAX_BUNDLE_ENTRIES
    && Total(archive.items) <= MAX_BUNDLE_UNPACKED
  }

  lemma {:induction false} PrefixesAreSmaller(items: seq<Item>, n: nat)
    requires n <= |items|
    ensures Total(items[..n]) <= Total(items) && |Paths(items[..n])| <= |Paths(items)|
  {
    if n < |items| {
      var front := items[..|items| - 1];
      PrefixesAreSmaller(front, n);
      assert front[..n] == items[..n];
    } else {
      assert items[..n] == items;
    }
  }

  /** `saturating_add`. */
  function SaturatingAdd(a: U64, b: U64): U64 {
    if a + b > U64_MAX then U64_MAX else a + b
  }

  /** One entry more: what it adds, and what it may not add to a bundle that fits. */
  lemma OneMoreEntry(archive: Archive, i: nat)
    requires archive.Readable? && i < |archive.items|
    ensures var items := archive.items;
            && (!Acceptable(items[i]) ==> !Fits(archive))
            && (|Paths(items[..i + 1])| > MAX_BUNDLE_ENTRIES || Total(items[..i + 1]) > MAX_BUNDLE_UNPACKED ==> !Fits(archive))
            && Paths(items[..i + 1]) == Paths(items[..i]) + (if Taken(items[i]) then [ClassifyEntry(items[i].entry).path] else [])
            && Total(items[..i + 1]) == Total(items[..i]) + (if Taken(items[i]) then SizeOf(items[i].entry) else 0)
  {
    var items := archive.items;
    assert items[i] in items;
    PrefixesAreSmaller(items, i + 1);
    assert items[..i + 1][..i] == items[..i];
  }

  /** Nothing is wrong with the entries before entry `i`, nor with how many and how large they are. */
  ghost predicate FineBefore(items: seq<Item>, i: int) {
    && 0 <= i < |items| && (forall j | 0 <= j < i :: Acceptable(items[j]))
    && |Paths(items[..i])| <= 2000 && Total(items[..i]) <= 134217728
  }

  /** What is wrong with it. */
  ghost predicate WrongAt(items: seq<Item>, i: int, failure: Failure)
    requires 0 <= i < |items|
  {
    match failure
    case Undecodable(why) => items[i] == Broken(why)
    case Rejected(message) => items[i].Whole? && ClassifyEntry(items[i].entry) == Reject(message)
    case TooMany => Acceptable(items[i]) && |Paths(items[..i + 1])| > 2000
    case TooBig => Acceptable(items[i]) && |Paths(items[..i + 1])| <= 2000 && Total(items[..i + 1]) > 134217728
    case _ => false
  }

  /** Why the first pass refuses an archive: the first thing wrong, or that there is no file. */
  ghost predicate RefusedFor(archive: Archive, failure: Failure) {
    match archive
    case Unreadable(why) => failure == Undecodable(why)
    case Readable(items) =>
      || (exists i :: FineBefore(items, i) && WrongAt(items, i, failure))
      || (failure == NoFiles && Paths(items) == [] && forall item <- items :: Acceptable(item))
  }

  /** The ceilings are counted as the entries go by; the answer is the same as for the whole. */
  method EntryPaths(archive: Archive) returns (r: Result<seq<string>, Failure>)
    ensures r.Ok? <==> Fits(archive)
    ensures r.Ok? ==> r.value == Paths(archive.items)
    ensures r.Err? ==> RefusedFor(archive, r.error)
  {
    if archive.Unreadable? {
      return Err(Undecodable(archive.why));
    }
    var items := archive.items;
    var paths: seq<string> := [];
    var total: U64 := 0;
    var i := 0;
    while i < |items|
      invariant 0 <= i <= |items|
      invariant forall j | 0 <= j < i :: Acceptable(items[j])
      invariant paths == Paths(items[..i]) && |paths| <= MAX_BUNDLE_ENTRIES
      invariant total == Total(items[..i]) <= MAX_BUNDLE_UNPACKED
    {
      OneMoreEntry(archive, i);
      assert FineBefore(items, i);
      if items[i].Broken? {
        assert WrongAt(items, i, Undecodable(items[i].why));
        return Err(Undecodable(items[i].why));
      }
      match ClassifyEntry(items[i].entry) {
        case Take(rel) =>
          total := SaturatingAdd(total, SizeOf(items[i].entry));
          paths := paths + [rel];
          if |paths| > MAX_BUNDLE_ENTRIES {
            assert WrongAt(items, i, TooMany);
            return Err(TooMany);
          }
          if total > MAX_BUNDLE_UNPACKED {
            assert WrongAt(items, i, TooBig);
            return Err(TooBig);
          }
        case Reject(message) =>
          assert WrongAt(items, i, Rejected(message));
          return Err(Rejected(message));
        case _ =>
      }
      i := i + 1;
    }
    assert items[..i] == items;
    if paths == [] {
      return Err(NoFiles);
    }
    return Ok(paths);
  }

  // --- the shared top directory ---

  function Top(path: string): string {
    Split(path, '/')[0]
  }

  /** A single top directory every path is under, unless the root has its index page. */
  function StripPrefix(paths: seq<string>): (top: Option<string>)
    ensures top.Some? ==> paths != [] && top.value == Top(paths[0])
  {
    if paths == [] then None else
    var first := Top(paths[0]);
    var allShare := forall path <- paths :: StartsWith(path, first + "/");
    var rootHasIndex := "index.html" in paths;
    if allShare && !rootHasIndex then Some(first) else None
  }

  /** `path.strip_prefix("{top}/").unwrap_or(path)`, or the path as it is. */
  function Below(top: Option<string>, path: string): string {
    if top.Some? && StartsWith(path, top.value + "/") then path[|top.value| + 1..] else path
  }

  lemma UnderTop(path: string, top: string)
    requires '/' !in top
    ensures StartsWith(path, top + "/") <==> Top(path) == top && |Split(path, '/')| > 1
    ensures StartsWith(path, top + "/") ==> path == top + "/" + path[|top| + 1..]
  {
    if StartsWith(path, top + "/") {
      assert path == top + "/" + path[|top| + 1..];
      SplitFirst(top, '/', path[|top| + 1..]);
    }
    if Top(path) == top && |Split(path, '/')| > 1 {
      var parts := Split(path, '/');
      JoinSplit(path, '/');
      assert path == top + "/" + Join(parts[1..], "/");
    }
  }

  /** The top directory goes exactly when every path has one and they all share it. */
  lemma TopGoesWhenShared(paths: seq<string>)
    requires paths != []
    ensures StripPrefix(paths).Some? <==>
            forall path <- paths :: Top(path) == Top(paths[0]) && |Split(path, '/')| > 1
  {
    var first := Top(paths[0]);
    assert first in Split(paths[0], '/');
    forall path <- paths
      ensures StartsWith(path, first + "/") <==> Top(path) == first && |Split(path, '/')| > 1
    {
      UnderTop(path, first);
    }
    SplitNone("index.html", '/');
  }

  /** What is left of an accepted path is an accepted path, never empty. */
  lemma BelowIsAccepted(paths: seq<string>, path: string)
    requires path in paths && ValidAssetPath(path)
    ensures ValidAssetPath(Below(StripPrefix(paths), path))
  {
    var top := StripPrefix(paths);
    if top.Some? && StartsWith(path, top.value + "/") {
      assert top.value in Split(paths[0], '/');
      UnderTop(path, top.value);
      AssetPathBelow(top.value, path[|top.value| + 1..]);
    }
  }

  // --- the second pass ---

  datatype Handing = Handing(path: string, size: U64, content: string)

  /** What the second pass makes of an entry: a file to hand over, a reason to leave it out, or nothing. */
  datatype Outcome = Hand(handing: Handing) | Leave(reason: string) | Nothing

  const PLATFORM_REASON := "files the platform keeps (sidecars such as index.meta, handler.wasm, data.db)"

  function OutcomeOf(entry: Entry, top: Option<string>, slug: string): Outcome {
    match ClassifyEntry(entry)
    case Take(path) =>
      var rel := Below(top, path);
      if rel == "" then Nothing
      else if PlatformFile(slug + "/" + rel) then Leave(PLATFORM_REASON)
      else Hand(Handing(rel, SizeOf(entry), entry.content))
    case Skip(reason) => Leave(reason)
    case _ => Nothing
  }

  /** What is handed over, in the archive's order. */
  function Handings(items: seq<Item>, top: Option<string>, slug: string): seq<Handing> {
    if items == [] then [] else
    var n := |items| - 1;
    Handings(items[..n], top, slug) +
    if items[n].Whole? && OutcomeOf(items[n].entry, top, slug).Hand? then [OutcomeOf(items[n].entry, top, slug).handing]
    else []
  }

  function HandedTotal(handings: seq<Handing>): nat {
    if handings == [] then 0 else HandedTotal(handings[..|handings| - 1]) + handings[|handings| - 1].size
  }

  function Once(reasons: seq<string>, reason: string): seq<string> {
    if reason in reasons then reasons else reasons + [reason]
  }

  /** Every reason something was left out, once, in the order first met. */
  function Reasons(items: seq<Item>, top: Option<string>, slug: string): seq<string> {
    if items == [] then [] else
    var n := |items| - 1;
    var before := Reasons(items[..n], top, slug);
    if items[n].Whole? && OutcomeOf(items[n].entry, top, slug).Leave? then
      Once(before, OutcomeOf(items[n].entry, top, slug).reason)
    else before
  }

  /** Every file the bundle has fits where it will be stored. */
  predicate KeysFit(paths: seq<string>, slug: string) {
    forall path <- paths ::
      Below(StripPrefix(paths), path) == "" || ValidKey(slug + "/" + Below(StripPrefix(paths), path))
  }

  lemma {:induction false} PathsOf(items: seq<Item>, i: nat)
    requires i < |items| && Taken(items[i])
    ensures ClassifyEntry(items[i].entry).path in Paths(items)
  {
    if i < |items| - 1 {
      PathsOf(items[..|items| - 1], i);
    }
  }

  function HandedPaths(handings: seq<Handing>): seq<string> {
    seq(|handings|, i requires 0 <= i < |handings| => handings[i].path)
  }

  lemma HandedAppend(handings: seq<Handing>, h: Handing)
    ensures HandedTotal(handings + [h]) == HandedTotal(handings) + h.size
    ensures HandedPaths(handings + [h]) == HandedPaths(handings) + [h.path]
  {
    assert (handings + [h])[..|handings|] == handings;
  }

  /** What is handed over of an entry is a taken file, of its size. */
  lemma HandedIsTaken(item: Item, top: Option<string>, slug: string)
    requires item.Whole? && OutcomeOf(item.entry, top, slug).Hand?
    ensures Taken(item) && OutcomeOf(item.entry, top, slug).handing.size == SizeOf(item.entry)
  {
  }

  lemma {:induction false} HandedAreTaken(items: seq<Item>, top: Option<string>, slug: string)
    ensures HandedTotal(Handings(items, top, slug)) <= Total(items)
  {
    if items != [] {
      var n := |items| - 1;
      HandedAreTaken(items[..n], top, slug);
      if items[n].Whole? && OutcomeOf(items[n].entry, top, slug).Hand? {
        HandedIsTaken(items[n], top, slug);
        HandedAppend(Handings(items[..n], top, slug), OutcomeOf(items[n].entry, top, slug).handing);
      } else {
        assert Handings(items[..n], top, slug) + [] == Handings(items[..n], top, slug);
      }
    }
  }

  /** The second pass's own ceiling is never met, nor its sum too large for a `u64`. */
  lemma SecondCeilingHolds(archive: Archive, top: Option<string>, slug: string, n: nat)
    requires Fits(archive) && n <= |archive.items|
    ensures HandedTotal(Handings(archive.items[..n], top, slug)) <= MAX_BUNDLE_UNPACKED
  {
    HandedAreTaken(archive.items[..n], top, slug);
    PrefixesAreSmaller(archive.items, n);
  }

  /** What a file of the bundle is handed over as. */
  lemma {:induction false} HandedFrom(items: seq<Item>, top: Option<string>, slug: string, h: Handing)
    requires h in Handings(items, top, slug)
    ensures exists i :: HandedAs(items, top, slug, h, i)
  {
    var n := |items| - 1;
    if h in Handings(items[..n], top, slug) {
      HandedFrom(items[..n], top, slug, h);
      var i :| HandedAs(items[..n], top, slug, h, i);
      assert HandedAs(items, top, slug, h, i);
    } else {
      assert HandedAs(items, top, slug, h, n);
    }
  }

  predicate HandedAs(items: seq<Item>, top: Option<string>, slug: string, h: Handing, i: int) {
    && 0 <= i < |items| && Taken(items[i])
    && OutcomeOf(items[i].entry, top, slug) == Hand(h)
  }
}
