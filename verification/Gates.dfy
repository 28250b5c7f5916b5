/**
 General access: who may open an app at one of its paths, and which setting
 says so (src/content/store.rs).
 */
module Gates {
  import opened Wrappers
  import opened Text
  import opened Paths
  import opened Folders

  datatype PathRule = PathRule(prefix: string, gate: string)

  /** What the resolution reads of an app's meta. */
  datatype AppMeta = AppMeta(project: Path, gate: Option<string>, rules: seq<PathRule>)

  datatype GateSource = Rule(prefix: string) | App | Project(path: Path) | Site

  datatype EffectiveGate = EffectiveGate(gate: string, source: GateSource, lockedBy: Option<Path>)

  /** The rule with the longest prefix of `within`, the last of equals. */
  function LongestRule(rules: seq<PathRule>, within: string): (rule: Option<PathRule>)
    ensures rule.None? <==> forall r <- rules :: !StartsWith(within, r.prefix)
    ensures rule.Some? ==> rule.value in rules && StartsWith(within, rule.value.prefix)
    ensures rule.Some? ==> forall r <- rules :: StartsWith(within, r.prefix) ==> |r.prefix| <= |rule.value.prefix|
  {
    if rules == [] then None else
    var rest := LongestRule(rules[1..], within);
    if StartsWith(within, rules[0].prefix) && (rest.None? || |rules[0].prefix| > |rest.value.prefix|) then Some(rules[0])
    else rest
  }

  /** None that applies is longer, and none after it is as long: `max_by_key` takes the last. */
  ghost predicate LastLongest(rules: seq<PathRule>, within: string, i: int) {
    && 0 <= i < |rules| && StartsWith(within, rules[i].prefix)
    && forall j | 0 <= j < |rules| && StartsWith(within, rules[j].prefix) ::
         |rules[j].prefix| <= |rules[i].prefix| && (j > i ==> |rules[j].prefix| < |rules[i].prefix|)
  }

  /** One rule more in front decides only if it is longer than all that apply. */
  lemma LongestBehind(rules: seq<PathRule>, within: string, i: int)
    requires rules != [] && i > 0
    ensures LastLongest(rules, within, i) <==>
              LastLongest(rules[1..], within, i - 1)
              && (StartsWith(within, rules[0].prefix) ==> |rules[0].prefix| <= |rules[i].prefix|)
  {
    var rest := rules[1..];
    assert forall j | 0 <= j < |rest| :: rest[j] == rules[j + 1];
    assert forall j | 0 < j < |rules| :: rules[j] == rest[j - 1];
  }

  lemma {:induction false} TheLongest(rules: seq<PathRule>, within: string)
    ensures LongestRule(rules, within).Some? ==>
              exists j :: LastLongest(rules, within, j) && rules[j] == LongestRule(rules, within).value
  {
    if rules != [] {
      TheLongest(rules[1..], within);
      var rest := LongestRule(rules[1..], within);
      if LongestRule(rules, within) == rest {
        if rest.Some? {
          var j :| LastLongest(rules[1..], within, j) && rules[1..][j] == rest.value;
          LongestBehind(rules, within, j + 1);
        }
      } else {
        assert LastLongest(rules, within, 0);
      }
    }
  }

  /** Which rule decides: the last of the longest that apply, and it is one. */
  lemma LastOfTheLongestDecides(rules: seq<PathRule>, within: string, i: int)
    ensures (exists r <- rules :: StartsWith(within, r.prefix)) <==> exists j :: LastLongest(rules, within, j)
    ensures LastLongest(rules, within, i) ==> LongestRule(rules, within) == Some(rules[i])
  {
    TheLongest(rules, within);
    if LastLongest(rules, within, i) {
      var j :| LastLongest(rules, within, j) && Some(rules[j]) == LongestRule(rules, within);
      assert j == i;
    }
  }

  predicate IsLocked(folders: seq<Folder>, path: Path) {
    var f := Find(folders, path);
    f.Some? && f.value.locked
  }

  /** A project's own setting, if it is a word that means something. */
  function OwnGate(folders: seq<Folder>, path: Path): Option<string> {
    var f := Find(folders, path);
    if f.Some? && f.value.gate.Some? then NormaliseGate(f.value.gate.value) else None
  }

  /** The folders above a place, outermost first. */
  function FolderChain(path: Path): seq<Path> {
    if path == [] then [] else seq(|path| - 1, i requires 0 <= i < |path| - 1 => path[..i + 1])
  }

  function FirstLocked(chain: seq<Path>, folders: seq<Folder>): Option<Path> {
    if chain == [] then None
    else if IsLocked(folders, chain[0]) then Some(chain[0])
    else FirstLocked(chain[1..], folders)
  }

  /** The places of the chain whose text is no longer than the lock's. */
  function NoLonger(chain: seq<Path>, lock: Path): seq<Path> {
    if chain == [] then []
    else (if |Written(chain[0])| <= |Written(lock)| then [chain[0]] else []) + NoLonger(chain[1..], lock)
  }

  function SiteGate(default: string): (string, GateSource) {
    (if NormaliseGate(default).Some? then NormaliseGate(default).value else "public", Site)
  }

  /** From the last place up: the first with a setting of its own, else the site's. */
  function SearchUp(places: seq<Path>, folders: seq<Folder>, default: string): (string, GateSource) {
    if places == [] then SiteGate(default) else
    var at := places[|places| - 1];
    if OwnGate(folders, at).Some? then (OwnGate(folders, at).value, Project(at))
    else SearchUp(places[..|places| - 1], folders, default)
  }

  /** The setting an app in the project falls back on. */
  function ProjectGate(folders: seq<Folder>, path: Path, default: string): (string, GateSource) {
    SearchUp(FolderChain(path + ["x"]), folders, default)
  }

  function ResolveGate(meta: AppMeta, folders: seq<Folder>, default: string, within: string): EffectiveGate {
    var chain := FolderChain(meta.project + ["x"]);
    var lockedBy := FirstLocked(chain, folders);
    if meta.project != [] && Find(folders, meta.project).None? then EffectiveGate("restricted", Site, lockedBy)
    else if lockedBy.Some? then
      var (gate, source) := SearchUp(NoLonger(chain, lockedBy.value), folders, default);
      EffectiveGate(gate, source, lockedBy)
    else
      var rule := LongestRule(meta.rules, within);
      if rule.Some? then EffectiveGate(rule.value.gate, Rule(rule.value.prefix), None)
      else if meta.gate.Some? then EffectiveGate(meta.gate.value, App, None)
      else
        var (gate, source) := SearchUp(chain, folders, default);
        EffectiveGate(gate, source, None)
  }

  // --- the same by going up from the project ---

  /** The lock nearest the top, at or above `project`. */
  function LockedBy(folders: seq<Folder>, project: Path): Option<Path> {
    if project == [] then None else
    var above := LockedBy(folders, Parent(project));
    if above.Some? then above
    else if IsLocked(folders, project) then Some(project)
    else None
  }

  /** The nearest setting at or above `project`, up from itself; else the site's. */
  function NearestGate(folders: seq<Folder>, project: Path, default: string): (string, GateSource) {
    if project == [] then SiteGate(default)
    else if OwnGate(folders, project).Some? then (OwnGate(folders, project).value, Project(project))
    else NearestGate(folders, Parent(project), default)
  }

  lemma ChainGrows(project: Path)
    requires project != []
    ensures FolderChain(project + ["x"]) == FolderChain(Parent(project) + ["x"]) + [project]
  {
    var chain, above := FolderChain(project + ["x"]), FolderChain(Parent(project) + ["x"]);
    forall i | 0 <= i < |above| ensures above[i] == chain[i] {
      assert (Parent(project) + ["x"])[..i + 1] == project[..i + 1] == (project + ["x"])[..i + 1];
    }
    assert chain[|above|] == (project + ["x"])[..|project|] == project;
  }

  lemma {:induction false} FirstLockedAppend(chain: seq<Path>, last: Path, folders: seq<Folder>)
    ensures FirstLocked(chain + [last], folders) ==
            if FirstLocked(chain, folders).Some? then FirstLocked(chain, folders)
            else if IsLocked(folders, last) then Some(last) else None
  {
    if chain != [] {
      FirstLockedAppend(chain[1..], last, folders);
      assert (chain + [last])[1..] == chain[1..] + [last];
    }
  }

  /** The first locked project of the chain is the lock nearest the top. */
  lemma {:induction false} FirstLockedIs(folders: seq<Folder>, project: Path)
    ensures FirstLocked(FolderChain(project + ["x"]), folders) == LockedBy(folders, project)
  {
    if project != [] {
      ChainGrows(project);
      FirstLockedIs(folders, Parent(project));
      FirstLockedAppend(FolderChain(Parent(project) + ["x"]), project, folders);
    }
  }

  /** The search through the chain from its end is going up. */
  lemma {:induction false} SearchUpIs(folders: seq<Folder>, project: Path, default: string)
    ensures ProjectGate(folders, project, default) == NearestGate(folders, project, default)
  {
    if project != [] {
      ChainGrows(project);
      SearchUpIs(folders, Parent(project), default);
      assert FolderChain(project + ["x"])[..|project| - 1] == FolderChain(Parent(project) + ["x"]);
    }
  }

  lemma {:induction false} NoLongerAppend(chain: seq<Path>, last: Path, lock: Path)
    ensures NoLonger(chain + [last], lock) ==
            NoLonger(chain, lock) + if |Written(last)| <= |Written(lock)| then [last] else []
  {
    if chain != [] {
      NoLongerAppend(chain[1..], last, lock);
      assert (chain + [last])[1..] == chain[1..] + [last];
    }
  }

  /** By the length of their text, the places of the chain down to the lock are the lock's own chain. */
  lemma {:induction false} NoLongerIsTheLocksChain(project: Path, lock: Path)
    requires lock != [] && Covers(lock, project)
    ensures NoLonger(FolderChain(project + ["x"]), lock) == FolderChain(lock + ["x"])
  {
    ChainGrows(project);
    NoLongerAppend(FolderChain(Parent(project) + ["x"]), project, lock);
    if project == lock {
      AllNoLonger(Parent(project), lock);
    } else {
      WrittenBelow(lock, project);
      NoLongerIsTheLocksChain(Parent(project), lock);
    }
  }

  lemma {:induction false} AllNoLonger(above: Path, lock: Path)
    requires lock != [] && Covers(above, lock)
    ensures NoLonger(FolderChain(above + ["x"]), lock) == FolderChain(above + ["x"])
  {
    if above != [] {
      ChainGrows(above);
      AllNoLonger(Parent(above), lock);
      NoLongerAppend(FolderChain(Parent(above) + ["x"]), above, lock);
      if above != lock {
        WrittenBelow(above, lock);
      }
    }
  }

  /** What the resolution comes to: the closed app, the lock's own setting, or the app's own say first. */
  function Resolved(meta: AppMeta, folders: seq<Folder>, default: string, within: string): EffectiveGate {
    var lockedBy := LockedBy(folders, meta.project);
    if meta.project != [] && meta.project !in Live(folders) then EffectiveGate("restricted", Site, lockedBy)
    else if lockedBy.Some? then
      var (gate, source) := NearestGate(folders, lockedBy.value, default);
      EffectiveGate(gate, source, lockedBy)
    else
      var rule := LongestRule(meta.rules, within);
      if rule.Some? then EffectiveGate(rule.value.gate, Rule(rule.value.prefix), None)
      else if meta.gate.Some? then EffectiveGate(meta.gate.value, App, None)
      else
        var (gate, source) := NearestGate(folders, meta.project, default);
        EffectiveGate(gate, source, None)
  }

  /** The chain cut by text length and searched from its end resolves to that. */
  lemma ResolveGateIs(meta: AppMeta, folders: seq<Folder>, default: string, within: string)
    ensures ResolveGate(meta, folders, default, within) == Resolved(meta, folders, default, within)
  {
    FirstLockedIs(folders, meta.project);
    SearchUpIs(folders, meta.project, default);
    var lock := LockedBy(folders, meta.project);
    if lock.Some? {
      LockedByIsOutermost(folders, meta.project);
      NoLongerIsTheLocksChain(meta.project, lock.value);
      SearchUpIs(folders, lock.value, default);
    }
  }

  // --- which lock, which setting ---

  /** The lock found is the outermost one at or above the project. */
  lemma {:induction false} LockedByIsOutermost(folders: seq<Folder>, project: Path)
    ensures match LockedBy(folders, project)
            case Some(lock) =>
              && lock != [] && Covers(lock, project) && IsLocked(folders, lock)
              && forall p | p != [] && Covers(p, project) && IsLocked(folders, p) :: Covers(lock, p)
            case None => forall p | p != [] && Covers(p, project) :: !IsLocked(folders, p)
  {
    if project != [] {
      LockedByIsOutermost(folders, Parent(project));
      forall p | p != project && Covers(p, project) ensures Covers(p, Parent(project)) {
      }
    }
  }

  /**
   Under a lock every app whose project exists opens as the locked project
   does, at every path within it, whatever the app, its rules or any project
   in between say.
   */
  lemma LockedAppsOpenAsTheLock(meta: AppMeta, folders: seq<Folder>, default: string, within: string)
    requires LockedBy(folders, meta.project).Some?
    ensures var lock := LockedBy(folders, meta.project).value;
            var resolved := ResolveGate(meta, folders, default, within);
            && lock != [] && Covers(lock, meta.project) && IsLocked(folders, lock)
            && (forall p | p != [] && Covers(p, meta.project) && IsLocked(folders, p) :: Covers(lock, p))
            && resolved.lockedBy == Some(lock)
            && if meta.project in Live(folders) then (resolved.gate, resolved.source) == ProjectGate(folders, lock, default)
               else resolved.gate == "restricted"
  {
    LockedByIsOutermost(folders, meta.project);
    ResolveGateIs(meta, folders, default, within);
    SearchUpIs(folders, LockedBy(folders, meta.project).value, default);
  }

  /** With no lock over it: the rule, then the app, then the nearest project, then the site. */
  lemma UnlockedAppsDecideFirst(meta: AppMeta, folders: seq<Folder>, default: string, within: string)
    requires LockedBy(folders, meta.project).None?
    requires meta.project == [] || meta.project in Live(folders)
    ensures var resolved := ResolveGate(meta, folders, default, within);
            && resolved.lockedBy == None
            && (resolved.source.Rule? <==> exists r <- meta.rules :: StartsWith(within, r.prefix))
            && (resolved.source.App? <==> meta.gate.Some? && forall r <- meta.rules :: !StartsWith(within, r.prefix))
            && (resolved.source.Project? || resolved.source.Site? ==>
                  (resolved.gate, resolved.source) == ProjectGate(folders, meta.project, default))
  {
    ResolveGateIs(meta, folders, default, within);
    SearchUpIs(folders, meta.project, default);
    NearestGateSource(folders, meta.project, default);
  }

  /** The project a setting comes from is the nearest one at or above that has one. */
  lemma {:induction false} NearestGateSource(folders: seq<Folder>, project: Path, default: string)
    ensures var (gate, source) := NearestGate(folders, project, default);
            match source
            case Project(p) =>
              && p != [] && Covers(p, project) && OwnGate(folders, p) == Some(gate)
              && forall q | Covers(q, project) && |q| > |p| :: OwnGate(folders, q) == None
            case Site => forall q | q != [] && Covers(q, project) :: OwnGate(folders, q) == None
            case _ => false
  {
    if project != [] && OwnGate(folders, project).None? {
      NearestGateSource(folders, Parent(project), default);
      forall q | q != project && Covers(q, project) ensures Covers(q, Parent(project)) {
      }
    }
  }

  // --- which level ---

  /** The words for a level, in any case and with blanks around. */
  predicate Names(word: string, level: string) {
    var plain := Lower(Trim(word));
    || (level == "public" && plain == "public")
    || (level == "authenticated" && plain in {"authenticated", "signed-in", "signed_in"})
    || (level == "restricted" && plain in {"restricted", "granted"})
  }

  lemma NormalIsNamed(word: string)
    ensures forall level :: NormaliseGate(word) == Some(level) <==> Names(word, level)
  {
  }

  /** The site's default: the level it names, and public where it names none. */
  ghost predicate DefaultIs(default: string, level: string) {
    Names(default, level) || (level == "public" && forall other :: !Names(default, other))
  }

  /** The level a project has of its own. */
  ghost predicate OwnLevel(folders: seq<Folder>, project: Path, level: string) {
    var row := Find(folders, project);
    row.Some? && row.value.gate.Some? && Names(row.value.gate.value, level)
  }

  lemma OwnGateIs(folders: seq<Folder>, project: Path)
    ensures forall level :: OwnGate(folders, project) == Some(level) <==> OwnLevel(folders, project, level)
  {
    var row := Find(folders, project);
    if row.Some? && row.value.gate.Some? {
      NormalIsNamed(row.value.gate.value);
    }
  }

  /** What a project gives: the level the nearest project with one names, or the site's default where none does. */
  lemma ProjectGateIs(folders: seq<Folder>, project: Path, default: string)
    ensures var (gate, source) := ProjectGate(folders, project, default);
            match source
            case Project(p) =>
              && p != [] && Covers(p, project) && OwnLevel(folders, p, gate)
              && forall q, level | Covers(q, project) && |q| > |p| :: !OwnLevel(folders, q, level)
            case Site =>
              && DefaultIs(default, gate)
              && forall q, level | q != [] && Covers(q, project) :: !OwnLevel(folders, q, level)
            case _ => false
  {
    SearchUpIs(folders, project, default);
    NearestGateSource(folders, project, default);
    NormalIsNamed(default);
    SiteGateIs(folders, project, default);
    forall q ensures forall level :: OwnGate(folders, q) == Some(level) <==> OwnLevel(folders, q, level) {
      OwnGateIs(folders, q);
    }
  }

  lemma {:induction false} SiteGateIs(folders: seq<Folder>, project: Path, default: string)
    ensures var (gate, source) := NearestGate(folders, project, default);
            source == Site ==> NormaliseGate(default) == Some(gate) || (NormaliseGate(default) == None && gate == "public")
  {
    if project != [] {
      SiteGateIs(folders, Parent(project), default);
    }
  }

  /**
   The gate an app opens with, and from where: restricted when its project is
   gone; under a lock what the locked project gives; else the last of its longest
   rules that apply, else its own gate, else what its project gives.
   */
  lemma GateIs(meta: AppMeta, folders: seq<Folder>, default: string, within: string, i: int)
    ensures var got := ResolveGate(meta, folders, default, within);
            && got.lockedBy == LockedBy(folders, meta.project)
            && if meta.project != [] && meta.project !in Live(folders) then got.gate == "restricted" && got.source == Site
               else if got.lockedBy.Some? then (got.gate, got.source) == ProjectGate(folders, got.lockedBy.value, default)
               else if exists r <- meta.rules :: StartsWith(within, r.prefix) then
                 && got.source.Rule?
                 && (LastLongest(meta.rules, within, i) ==> PathRule(got.source.prefix, got.gate) == meta.rules[i])
               else if meta.gate.Some? then got.gate == meta.gate.value && got.source == App
               else (got.gate, got.source) == ProjectGate(folders, meta.project, default)
  {
    ResolveGateIs(meta, folders, default, within);
    LastOfTheLongestDecides(meta.rules, within, i);
    SearchUpIs(folders, meta.project, default);
    if LockedBy(folders, meta.project).Some? {
      SearchUpIs(folders, LockedBy(folders, meta.project).value, default);
    }
  }
}
