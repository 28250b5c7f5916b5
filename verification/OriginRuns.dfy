/**
 Any number of label requests at once, beside publishes and removals
 (src/content/origins.rs): a run is any interleaving of their steps. A request
 reads its app's label, looks at every other app one by one, checks that its app
 exists, chooses and issues in one step of the catalog, and last stores the label.
 */
module OriginRuns {
  import opened Wrappers
  import opened Text
  import opened Slug
  import opened Labels
  import opened Origins

  datatype Phase =
    | Asked
    | Listing
    | Looking(left: set<string>, seen: set<string>)
    | Choosing(seen: set<string>, existing: bool)
    | Storing(name: string)
    | Answered(name: string, recorded: bool)
    | Refused(owner: string)

  datatype Request = Request(app: string, phase: Phase)

  datatype State = State(site: Site, requests: seq<Request>)

  datatype Move =
    | Publish(app: string)
    | Remove(app: string)
    | PutBack(app: string, name: string)   // from the trash, with the label put away
    | Ask(app: string)
    | ReadMeta(i: nat)
    | List(i: nat, ok: bool)
    | Look(i: nat, other: string, ok: bool)
    | Check(i: nat, ok: bool)
    | Choose(i: nat, name: string, written: bool)   // whether the list could be written
    | Store(i: nat, ok: bool)

  ghost predicate Empty(s: State) {
    s.site == Site({}, map[], map[], {}) && s.requests == []
  }

  /** With `careful`, no write of the list fails. */
  ghost predicate Enabled(s: State, m: Move, hash: Hash, careful: bool) {
    match m
    case Publish(_) => true
    case Remove(app) => app in s.site.apps
    case PutBack(app, name) => app !in s.site.apps && (app, name) in s.site.trash
    case Ask(_) => true
    case ReadMeta(i) => i < |s.requests| && s.requests[i].phase.Asked?
    case List(i, _) => i < |s.requests| && s.requests[i].phase.Listing?
    case Look(i, other, _) =>
      i < |s.requests| && s.requests[i].phase.Looking? && other in s.requests[i].phase.left
    case Check(i, _) => i < |s.requests| && s.requests[i].phase.Looking? && s.requests[i].phase.left == {}
    case Choose(i, name, written) =>
      && (careful ==> written)
      && i < |s.requests| && s.requests[i].phase.Choosing?
      && Chosen(s.site.issued, s.requests[i].app, s.requests[i].phase.seen, hash, name)
    case Store(i, _) => i < |s.requests| && s.requests[i].phase.Storing?
  }

  /** A removal puts the label away with the app. */
  function Removed(site: Site, app: string): Site {
    site.(apps := site.apps - {app}, meta := site.meta - {app},
          trash := if app in site.meta then site.trash + {(app, site.meta[app])} else site.trash)
  }

  function Moved(s: State, i: nat, phase: Phase): State
    requires i < |s.requests|
  {
    s.(requests := s.requests[i := s.requests[i].(phase := phase)])
  }

  function Next(s: State, m: Move, hash: Hash): State
    requires Enabled(s, m, hash, false)
  {
    match m
    case Publish(app) => s.(site := s.site.(apps := s.site.apps + {app}))
    case Remove(app) => s.(site := Removed(s.site, app))
    case PutBack(app, name) => s.(site := s.site.(apps := s.site.apps + {app}, meta := s.site.meta[app := name]))
    case Ask(app) => s.(requests := s.requests + [Request(app, Asked)])
    case ReadMeta(i) => Moved(s, i, AfterMeta(s.site, s.requests[i].app))
    case List(i, ok) => Moved(s, i, Looking(if ok then s.site.apps - {s.requests[i].app} else {}, {}))
    case Look(i, other, ok) => Moved(s, i, AfterLook(s.site, s.requests[i].phase, other, ok))
    case Check(i, ok) =>
      Moved(s, i, Choosing(s.requests[i].phase.seen, ok && s.site.Exists(s.requests[i].app)))
    case Choose(i, name, written) => AfterChoice(s, i, name, written)
    case Store(i, ok) =>
      var app, name := s.requests[i].app, s.requests[i].phase.name;
      Moved(if ok then s.(site := s.site.(meta := s.site.meta[app := name])) else s, i, Answered(name, true))
  }

  function AfterMeta(site: Site, app: string): Phase {
    if app in site.meta && ValidLabel(site.meta[app]) then Answered(site.meta[app], true) else Listing
  }

  /** A meta that cannot be read has no label. */
  function AfterLook(site: Site, phase: Phase, other: string, ok: bool): Phase
    requires phase.Looking?
  {
    Looking(phase.left - {other}, phase.seen + HeldOf(other, if ok then Stored(site, other) else None))
  }

  function AfterChoice(s: State, i: nat, name: string, written: bool): State
    requires i < |s.requests| && s.requests[i].phase.Choosing?
  {
    var r := s.requests[i];
    match Assigned(s.site.issued, r.app, r.phase.existing, name, written)
    case Err(owner) => Moved(s, i, Refused(owner))
    case Ok(issued) =>
      Moved(s.(site := s.site.(issued := issued)), i,
          if r.phase.existing then Storing(name) else Answered(name, false))
  }

  ghost predicate Steps(s: State, s': State, hash: Hash, careful: bool) {
    exists m: Move :: Enabled(s, m, hash, careful) && s' == Next(s, m, hash)
  }

  ghost predicate IsRun(trace: seq<State>, hash: Hash, careful: bool) {
    && trace != [] && Empty(trace[0])
    && forall i | 0 <= i < |trace| - 1 :: Steps(trace[i], trace[i + 1], hash, careful)
  }

  ghost predicate Reachable(s: State, hash: Hash, careful: bool) {
    exists trace :: IsRun(trace, hash, careful) && trace[|trace| - 1] == s
  }

  /** An app removed and put back has the label it had, and so has everyone else. */
  lemma RemovedComesBack(s: State, app: string, hash: Hash)
    requires app in s.site.apps && app in s.site.meta
    ensures var (name, gone) := (s.site.meta[app], Next(s, Remove(app), hash));
            && app !in gone.site.apps && app !in gone.site.meta
            && Enabled(gone, PutBack(app, name), hash, true)
            && var back := Next(gone, PutBack(app, name), hash);
               back.site == s.site.(trash := back.site.trash) && back.requests == s.requests
  {
    var name, gone := s.site.meta[app], Next(s, Remove(app), hash);
    assert Next(gone, PutBack(app, name), hash).site.apps == s.site.apps;
  }

  /** A look at another app adds the label it has, or, with none stored or its meta not read, its name where that is one. */
  lemma LookSees(s: State, i: nat, other: string, ok: bool, hash: Hash, name: string)
    requires Enabled(s, Look(i, other, ok), hash, true)
    ensures var (before, s') := (s.requests[i].phase, Next(s, Look(i, other, ok), hash));
            && s'.site == s.site && s'.requests[i].phase.Looking? && s'.requests[i].phase.left == before.left - {other}
            && (name in s'.requests[i].phase.seen <==>
                  name in before.seen
                  || if ok && other in s.site.meta then name == s.site.meta[other] else name == other && IsHostLabel(other))
  {
    OwnLabelIs(other);
  }

  /** What a request knows is so. */
  predicate Knows(issued: map<string, string>, r: Request) {
    match r.phase
    case Choosing(_, existing) => existing ==> ValidSegment(r.app)
    case Storing(name) => Holds(issued, r.app, name)
    case Answered(name, recorded) => recorded ==> Holds(issued, r.app, name)
    case Refused(_) => false
    case _ => true
  }

  ghost predicate Inv(s: State) {
    && Sound(s.site)
    && forall r <- s.requests :: Knows(s.site.issued, r)
  }

  lemma KnownWhenGrown(before: map<string, string>, after: map<string, string>, r: Request)
    requires Grew(before, after) && Knows(before, r)
    ensures Knows(after, r)
  {
  }

  /** One request moved on, the list at most grown. */
  lemma Replaced(s: State, site: Site, i: nat, phase: Phase)
    requires Inv(s) && i < |s.requests|
    requires Sound(site) && Grew(s.site.issued, site.issued)
    requires Knows(site.issued, s.requests[i].(phase := phase))
    ensures Inv(Moved(s.(site := site), i, phase))
  {
    forall r <- Moved(s.(site := site), i, phase).requests ensures Knows(site.issued, r) {
      if r in s.requests {
        KnownWhenGrown(s.site.issued, site.issued, r);
      }
    }
  }

  lemma InvKeepsSite(s: State, m: Move, hash: Hash)
    requires Inv(s) && Enabled(s, m, hash, true) && (m.Publish? || m.Remove? || m.PutBack? || m.Ask?)
    ensures Inv(Next(s, m, hash))
  {
  }

  lemma InvKeepsChoice(s: State, i: nat, name: string, hash: Hash)
    requires Inv(s) && HexHash(hash) && Enabled(s, Choose(i, name, true), hash, true)
    ensures Inv(AfterChoice(s, i, name, true))
  {
    var r := s.requests[i];
    var record := r.phase.existing;
    ChoicesAreNeverRefused(s.site.issued, r.app, record, r.phase.seen, hash, name, true);
    var issued := Assigned(s.site.issued, r.app, record, name, true).value;
    var site := s.site.(issued := issued);
    assert Knows(s.site.issued, r);
    if record {
      ChosenIsValid(s.site.issued, r.app, r.phase.seen, hash, name);
    }
    SoundWhenGrown(s.site, site);
    Replaced(s, site, i, if record then Storing(name) else Answered(name, false));
  }

  lemma SoundWhenGrown(before: Site, after: Site)
    requires Sound(before) && Grew(before.issued, after.issued)
    requires after.meta == before.meta && after.trash == before.trash
    ensures Sound(after)
  {
  }

  lemma InvKeepsStore(s: State, i: nat, ok: bool, hash: Hash)
    requires Inv(s) && Enabled(s, Store(i, ok), hash, true)
    ensures Inv(Next(s, Store(i, ok), hash))
  {
    var app, name := s.requests[i].app, s.requests[i].phase.name;
    assert Knows(s.site.issued, s.requests[i]);
    var site := if ok then s.site.(meta := s.site.meta[app := name]) else s.site;
    Replaced(s, site, i, Answered(name, true));
  }

  lemma InvKeepsReading(s: State, m: Move, hash: Hash)
    requires Inv(s) && Enabled(s, m, hash, true) && (m.ReadMeta? || m.List? || m.Look? || m.Check?)
    ensures Inv(Next(s, m, hash))
  {
    Replaced(s, s.site, m.i, Next(s, m, hash).requests[m.i].phase);
  }

  lemma InvKeeps(s: State, m: Move, hash: Hash)
    requires Inv(s) && HexHash(hash) && Enabled(s, m, hash, true)
    ensures Inv(Next(s, m, hash))
  {
    match m
    case Choose(i, name, _) => InvKeepsChoice(s, i, name, hash);
    case Store(i, ok) => InvKeepsStore(s, i, ok, hash);
    case Publish(_) => InvKeepsSite(s, m, hash);
    case Remove(_) => InvKeepsSite(s, m, hash);
    case PutBack(_, _) => InvKeepsSite(s, m, hash);
    case Ask(_) => InvKeepsSite(s, m, hash);
    case _ => InvKeepsReading(s, m, hash);
  }

  lemma StepGrows(s: State, m: Move, hash: Hash)
    requires Enabled(s, m, hash, false)
    ensures Grew(s.site.issued, Next(s, m, hash).site.issued)
  {
    if m.Choose? {
      var r := s.requests[m.i];
      ChoicesAreNeverRefused(s.site.issued, r.app, r.phase.existing, r.phase.seen, hash, m.name, m.written);
    }
  }

  /**
   Over any interleaving from an empty site, whether the list can be written or
   not, what was ever recorded stays recorded, to the same app: neither a
   removal nor anything published since passes such a label on.
   */
  lemma {:induction false} NeverReissued(trace: seq<State>, hash: Hash, careful: bool, from: nat)
    requires IsRun(trace, hash, careful) && from < |trace|
    ensures Grew(trace[from].site.issued, trace[|trace| - 1].site.issued)
  {
    var n := |trace| - 1;
    if n > 0 && from < n {
      NeverReissued(trace[..n], hash, careful, from);
      assert Steps(trace[n - 1], trace[n], hash, careful);
      var m: Move :| Enabled(trace[n - 1], m, hash, careful) && trace[n] == Next(trace[n - 1], m, hash);
      StepGrows(trace[n - 1], m, hash);
    }
  }

  lemma {:induction false} RunsKeep(trace: seq<State>, hash: Hash)
    requires IsRun(trace, hash, true) && HexHash(hash)
    ensures Inv(trace[|trace| - 1])
  {
    var n := |trace| - 1;
    if n > 0 {
      RunsKeep(trace[..n], hash);
      assert Steps(trace[n - 1], trace[n], hash, true);
      var m: Move :| Enabled(trace[n - 1], m, hash, true) && trace[n] == Next(trace[n - 1], m, hash);
      InvKeeps(trace[n - 1], m, hash);
    }
  }

  /** No two apps have one label stored. */
  ghost predicate OneHolder(s: State) {
    forall a <- s.site.meta, b <- s.site.meta :: a != b ==> s.site.meta[a] != s.site.meta[b]
  }

  /** However requests, publishes and removals interleave, no two apps hold one label, stored or answered. */
  lemma NoTwoHoldOneLabel(s: State, hash: Hash)
    requires Reachable(s, hash, true) && HexHash(hash)
    ensures OneHolder(s)
    ensures forall i, j | 0 <= i < |s.requests| && 0 <= j < |s.requests| && s.requests[i].app != s.requests[j].app ::
              s.requests[i].phase.Answered? && s.requests[i].phase.recorded
              && s.requests[j].phase.Answered? && s.requests[j].phase.recorded
              ==> s.requests[i].phase.name != s.requests[j].phase.name
    ensures forall r <- s.requests :: !r.phase.Refused?
  {
    var trace :| IsRun(trace, hash, true) && trace[|trace| - 1] == s;
    RunsKeep(trace, hash);
    forall i, j | 0 <= i < |s.requests| && 0 <= j < |s.requests|
      ensures Knows(s.site.issued, s.requests[i]) && Knows(s.site.issued, s.requests[j])
    {
    }
    forall a <- s.site.meta ensures Holds(s.site.issued, a, s.site.meta[a]) {
    }
  }

  /** A label an app was answered, and that was recorded, is its own in every later state. */
  lemma AnswersLast(trace: seq<State>, hash: Hash, from: nat, i: nat)
    requires IsRun(trace, hash, true) && HexHash(hash) && from < |trace|
    requires i < |trace[from].requests| && trace[from].requests[i].phase.Answered?
    requires trace[from].requests[i].phase.recorded
    ensures Holds(trace[|trace| - 1].site.issued, trace[from].requests[i].app, trace[from].requests[i].phase.name)
  {
    NeverReissued(trace, hash, true, from);
    var start := trace[..from + 1];
    RunsKeep(start, hash);
    assert Knows(trace[from].site.issued, trace[from].requests[i]);
  }

  // --- a list that cannot be written ---

  /** What this move gives an app for the first time without its getting on the list. */
  function LeftOff(s: State, m: Move): set<(string, string)> {
    if m.Choose? && !m.written && m.i < |s.requests| && s.requests[m.i].phase.Choosing?
       && s.requests[m.i].phase.existing && m.name !in s.site.issued
    then {(s.requests[m.i].app, m.name)} else {}
  }

  /** A state, and all that was given unwritten on the way to it: app and label. */
  datatype Logged = Logged(state: State, lost: set<(string, string)>)

  ghost predicate LoggedSteps(l: Logged, l': Logged, hash: Hash) {
    exists m: Move :: Enabled(l.state, m, hash, false) && l' == Logged(Next(l.state, m, hash), l.lost + LeftOff(l.state, m))
  }

  ghost predicate IsLogged(trace: seq<Logged>, hash: Hash) {
    && trace != [] && Empty(trace[0].state) && trace[0].lost == {}
    && forall i | 0 <= i < |trace| - 1 :: LoggedSteps(trace[i], trace[i + 1], hash)
  }

  /** Every run has its log. */
  lemma {:induction false} RunsAreLogged(trace: seq<State>, hash: Hash) returns (logged: seq<Logged>)
    requires IsRun(trace, hash, false)
    ensures IsLogged(logged, hash) && |logged| == |trace|
    ensures forall i | 0 <= i < |trace| :: logged[i].state == trace[i]
  {
    var n := |trace| - 1;
    if n == 0 {
      logged := [Logged(trace[0], {})];
    } else {
      logged := RunsAreLogged(trace[..n], hash);
      assert Steps(trace[n - 1], trace[n], hash, false);
      var m: Move :| Enabled(trace[n - 1], m, hash, false) && trace[n] == Next(trace[n - 1], m, hash);
      var last := logged[n - 1];
      var next := Logged(trace[n], last.lost + LeftOff(last.state, m));
      assert LoggedSteps(last, next, hash);
      logged := logged + [next];
    }
  }

  /** On the list as the app's, or given to it unwritten. */
  ghost predicate Backed(issued: map<string, string>, lost: set<(string, string)>, app: string, name: string) {
    Holds(issued, app, name) || (app, name) in lost
  }

  ghost predicate KnowsBacked(issued: map<string, string>, lost: set<(string, string)>, r: Request) {
    match r.phase
    case Choosing(_, existing) => existing ==> ValidSegment(r.app)
    case Storing(name) => Backed(issued, lost, r.app, name)
    case _ => true
  }

  ghost predicate AllBacked(s: State, lost: set<(string, string)>) {
    && (forall app <- s.site.meta :: Backed(s.site.issued, lost, app, s.site.meta[app]))
    && (forall put <- s.site.trash :: Backed(s.site.issued, lost, put.0, put.1))
    && (forall r <- s.requests :: KnowsBacked(s.site.issued, lost, r))
  }

  lemma BackedStays(s: State, lost: set<(string, string)>, issued: map<string, string>, more: set<(string, string)>)
    requires AllBacked(s, lost) && Grew(s.site.issued, issued) && lost <= more
    ensures AllBacked(s.(site := s.site.(issued := issued)), more)
  {
  }

  lemma BackedMoved(s: State, lost: set<(string, string)>, i: nat, phase: Phase)
    requires AllBacked(s, lost) && i < |s.requests|
    requires KnowsBacked(s.site.issued, lost, s.requests[i].(phase := phase))
    ensures AllBacked(Moved(s, i, phase), lost)
  {
    forall r <- Moved(s, i, phase).requests ensures KnowsBacked(s.site.issued, lost, r) {
      if r !in s.requests {
        assert r == s.requests[i].(phase := phase);
      }
    }
  }

  lemma ChoiceBacked(s: State, lost: set<(string, string)>, i: nat, name: string, written: bool, hash: Hash)
    requires AllBacked(s, lost) && HexHash(hash) && Enabled(s, Choose(i, name, written), hash, false)
    ensures AllBacked(AfterChoice(s, i, name, written), lost + LeftOff(s, Choose(i, name, written)))
  {
    var r, more := s.requests[i], lost + LeftOff(s, Choose(i, name, written));
    var record := r.phase.existing;
    ChoicesAreNeverRefused(s.site.issued, r.app, record, r.phase.seen, hash, name, written);
    var issued := Assigned(s.site.issued, r.app, record, name, written).value;
    assert KnowsBacked(s.site.issued, lost, r);
    if record {
      ChosenIsValid(s.site.issued, r.app, r.phase.seen, hash, name);
      assert written || name in s.site.issued ==> Holds(issued, r.app, name);
    }
    BackedStays(s, lost, issued, more);
    BackedMoved(s.(site := s.site.(issued := issued)), more, i, if record then Storing(name) else Answered(name, false));
  }

  lemma StoreBacked(s: State, lost: set<(string, string)>, i: nat, ok: bool, hash: Hash)
    requires AllBacked(s, lost) && Enabled(s, Store(i, ok), hash, false)
    ensures AllBacked(Next(s, Store(i, ok), hash), lost)
  {
    var app, name := s.requests[i].app, s.requests[i].phase.name;
    assert KnowsBacked(s.site.issued, lost, s.requests[i]);
    var stored := if ok then s.(site := s.site.(meta := s.site.meta[app := name])) else s;
    BackedMoved(stored, lost, i, Answered(name, true));
  }

  lemma StepBacked(s: State, lost: set<(string, string)>, m: Move, hash: Hash)
    requires AllBacked(s, lost) && HexHash(hash) && Enabled(s, m, hash, false)
    ensures AllBacked(Next(s, m, hash), lost + LeftOff(s, m))
  {
    assert !m.Choose? ==> lost + LeftOff(s, m) == lost;
    match m
    case Choose(i, name, written) => ChoiceBacked(s, lost, i, name, written, hash);
    case Store(i, ok) => StoreBacked(s, lost, i, ok, hash);
    case Publish(_) =>
    case Remove(_) =>
    case PutBack(_, _) =>
    case Ask(_) =>
    case _ => BackedMoved(s, lost, m.i, Next(s, m, hash).requests[m.i].phase);
  }

  lemma {:induction false} RunBacked(trace: seq<Logged>, hash: Hash)
    requires IsLogged(trace, hash) && HexHash(hash)
    ensures AllBacked(trace[|trace| - 1].state, trace[|trace| - 1].lost)
  {
    var n := |trace| - 1;
    if n > 0 {
      RunBacked(trace[..n], hash);
      var l := trace[n - 1];
      assert LoggedSteps(l, trace[n], hash);
      var m: Move :| Enabled(l.state, m, hash, false) && trace[n] == Logged(Next(l.state, m, hash), l.lost + LeftOff(l.state, m));
      StepBacked(l.state, l.lost, m, hash);
    }
  }

  /** Two apps have the label stored, and one of them was given it unwritten. */
  ghost predicate SharedUnwritten(s: State, lost: set<(string, string)>, a: string, b: string) {
    && a in s.site.meta && b in s.site.meta && a != b && s.site.meta[a] == s.site.meta[b]
    && (a, s.site.meta[a]) in lost
  }

  lemma SharedIsLeftOff(s: State, lost: set<(string, string)>, a: string, b: string)
    requires AllBacked(s, lost) && a in s.site.meta && b in s.site.meta && a != b && s.site.meta[a] == s.site.meta[b]
    ensures SharedUnwritten(s, lost, a, b) || SharedUnwritten(s, lost, b, a)
  {
    assert Backed(s.site.issued, lost, a, s.site.meta[a]) && Backed(s.site.issued, lost, b, s.site.meta[b]);
  }

  lemma OneHolderUnlessLeftOff(s: State, lost: set<(string, string)>)
    requires AllBacked(s, lost)
    ensures OneHolder(s) <==> !exists a, b :: SharedUnwritten(s, lost, a, b)
  {
    forall a <- s.site.meta, b <- s.site.meta | a != b && s.site.meta[a] == s.site.meta[b]
      ensures SharedUnwritten(s, lost, a, b) || SharedUnwritten(s, lost, b, a)
    {
      SharedIsLeftOff(s, lost, a, b);
    }
  }

  /**
   In any one run: two apps come to have one label exactly where one of them was
   given it in a step that could not write the list.
   */
  lemma OneHolderInARun(trace: seq<Logged>, hash: Hash)
    requires IsLogged(trace, hash) && HexHash(hash)
    ensures var last := trace[|trace| - 1];
            OneHolder(last.state) <==> !exists a, b :: SharedUnwritten(last.state, last.lost, a, b)
  {
    RunBacked(trace, hash);
    OneHolderUnlessLeftOff(trace[|trace| - 1].state, trace[|trace| - 1].lost);
  }

  lemma OneMore(s: State, m: Move, hash: Hash)
    requires Reachable(s, hash, false) && Enabled(s, m, hash, false)
    ensures Reachable(Next(s, m, hash), hash, false)
  {
    var trace :| IsRun(trace, hash, false) && trace[|trace| - 1] == s;
    var longer := trace + [Next(s, m, hash)];
    assert Steps(s, Next(s, m, hash), hash, false);
    assert IsRun(longer, hash, false) && longer[|longer| - 1] == Next(s, m, hash);
  }

  /** `app` is published and asks, with nobody else there. */
  lemma AsksAlone(app: string, hash: Hash)
    requires ValidSegment(app)
    ensures Reachable(State(Site({app}, map[], map[], {}), [Request(app, Choosing({}, true))]), hash, false)
  {
    var s := State(Site({}, map[], map[], {}), []);
    assert IsRun([s], hash, false);
    OneMore(s, Publish(app), hash);
    s := Next(s, Publish(app), hash);
    OneMore(s, Ask(app), hash);
    s := Next(s, Ask(app), hash);
    OneMore(s, ReadMeta(0), hash);
    s := Next(s, ReadMeta(0), hash);
    OneMore(s, List(0, true), hash);
    s := Next(s, List(0, true), hash);
    assert s.requests[0].phase == Looking({}, {});
    OneMore(s, Check(0, true), hash);
    s := Next(s, Check(0, true), hash);
    assert s.site.apps == {app} && s.requests == [Request(app, Choosing({}, true))];
  }

  /** Its name being no label, it is given one that does not get on the list. */
  lemma GivenUnwritten(app: string, hash: Hash) returns (s: State)
    requires ValidSegment(app)
    ensures Reachable(s, hash, false)
    ensures s == State(Site({app}, map[], map[], {}), [Request(app, Storing(Derived(app, 0, hash)))])
  {
    AsksAlone(app, hash);
    s := State(Site({app}, map[], map[], {}), [Request(app, Choosing({}, true))]);
    FirstIsChosen(map[], app, {}, hash);
    OneMore(s, Choose(0, Derived(app, 0, hash), false), hash);
    s := Next(s, Choose(0, Derived(app, 0, hash), false), hash);
  }

  lemma FirstIsChosen(issued: map<string, string>, app: string, seen: set<string>, hash: Hash)
    requires issued == map[] && Derived(app, 0, hash) !in seen
    ensures Chosen(issued, app, seen, hash, Derived(app, 0, hash))
  {
    var held := seen + OthersIssued(issued, app);
    assert held == seen;
    assert forall own :: !Usable(issued, app, held, own);
    assert FreeAt(app, held, hash, Derived(app, 0, hash), 0);
  }

  /** Meanwhile an app of that very name is published and asks: it sees nobody who has it. */
  lemma AsksMeanwhile(app: string, name: string, hash: Hash, start: State)
    requires Reachable(start, hash, false) && app != name && !OwnLabel(app) && ValidSegment(name)
    requires start == State(Site({app}, map[], map[], {}), [Request(app, Storing(name))])
    ensures Reachable(State(Site({app, name}, map[], map[], {}), [Request(app, Storing(name)), Request(name, Choosing({}, true))]),
                      hash, false)
  {
    var s := start;
    OneMore(s, Publish(name), hash);
    s := Next(s, Publish(name), hash);
    OneMore(s, Ask(name), hash);
    s := Next(s, Ask(name), hash);
    OneMore(s, ReadMeta(1), hash);
    s := Next(s, ReadMeta(1), hash);
    OneMore(s, List(1, true), hash);
    s := Next(s, List(1, true), hash);
    assert s.requests[1].phase == Looking({app}, {});
    OneMore(s, Look(1, app, true), hash);
    s := Next(s, Look(1, app, true), hash);
    assert s.requests[1].phase == Looking({}, {});
    OneMore(s, Check(1, true), hash);
    s := Next(s, Check(1, true), hash);
    assert s.site.apps == {app, name};
    assert s.requests == [Request(app, Storing(name)), Request(name, Choosing({}, true))];
  }

  /** So it has it too. */
  lemma TakenAsName(app: string, name: string, hash: Hash, start: State) returns (s: State)
    requires app != name && OwnLabel(name)
    requires start == State(Site({app, name}, map[], map[], {}), [Request(app, Storing(name)), Request(name, Choosing({}, true))])
    requires Reachable(start, hash, false)
    ensures Reachable(s, hash, false)
    ensures s.site.meta == map[name := name] && s.requests == [Request(app, Storing(name)), Request(name, Answered(name, true))]
  {
    FirstIsChosen(map[], name, {}, hash);
    OneMore(start, Choose(1, name, true), hash);
    s := Next(start, Choose(1, name, true), hash);
    OneMore(s, Store(1, true), hash);
    s := Next(s, Store(1, true), hash);
  }

  lemma SegmentIfLabel(name: string)
    requires ValidLabel(name)
    ensures ValidSegment(name)
  {
    forall c <- name ensures SegmentChar(c) {
      var i :| 0 <= i < |name| && name[i] == c;
      assert LabelChar(name[i]);
    }
  }

  lemma TwoHolders(app: string, hash: Hash) returns (s: State)
    requires ValidSegment(app) && !OwnLabel(app) && HexHash(hash)
    ensures Reachable(s, hash, false) && !OneHolder(s)
  {
    var name := Derived(app, 0, hash);
    DerivedIsLegal(app, 0, hash);
    SegmentIfLabel(name);
    s := GivenUnwritten(app, hash);
    AsksMeanwhile(app, name, hash, s);
    s := State(Site({app, name}, map[], map[], {}), [Request(app, Storing(name)), Request(name, Choosing({}, true))]);
    s := TakenAsName(app, name, hash, s);
    OneMore(s, Store(0, true), hash);
    s := Next(s, Store(0, true), hash);
    assert app in s.site.meta && name in s.site.meta && s.site.meta[app] == s.site.meta[name];
  }

  /**
   No two apps ever hold one label exactly when no write of the list may fail:
   the label is given all the same, and another app may come by it.
   */
  lemma OneHolderExactlyWhen(hash: Hash, careful: bool)
    requires HexHash(hash)
    ensures (forall s :: Reachable(s, hash, careful) ==> OneHolder(s)) <==> careful
  {
    if careful {
      forall s | Reachable(s, hash, true) ensures OneHolder(s) {
        NoTwoHoldOneLabel(s, hash);
      }
    } else {
      assert !LabelChar("A"[0]);
      var s := TwoHolders("A", hash);
    }
  }

  // --- a request with nothing between its steps ---

  /** A move of request `i` in which everything it asks is answered. */
  predicate OwnMove(m: Move, i: nat) {
    match m
    case ReadMeta(j) => i == j
    case List(j, ok) => i == j && ok
    case Look(j, _, ok) => i == j && ok
    case Check(j, ok) => i == j && ok
    case Choose(j, _, written) => i == j && written
    case Store(j, ok) => i == j && ok
    case _ => false
  }

  predicate NoLabel(site: Site, app: string) {
    !(app in site.meta && ValidLabel(site.meta[app]))
  }

  /** What the request has seen so far, the apps still to look at left out. */
  ghost predicate SeenWithout(site: Site, app: string, left: set<string>, seen: set<string>) {
    forall name :: name in seen <==>
      exists other <- site.apps :: other != app && other !in left && name in HeldOf(other, Stored(site, other))
  }

  ghost predicate MayBeChosen(site: Site, app: string, hash: Hash, name: string) {
    exists seen: set<string> :: IsHeld(site, app, seen) && Chosen(site.issued, app, seen, hash, name)
  }

  /** Where a request is that found the site as `before` and had it to itself. */
  ghost predicate OnItsWay(before: Site, hash: Hash, r: Request, site: Site) {
    match r.phase
    case Asked => site == before
    case Listing => site == before && NoLabel(before, r.app)
    case Looking(left, seen) =>
      && site == before && NoLabel(before, r.app)
      && left <= before.apps && r.app !in left && SeenWithout(before, r.app, left, seen)
    case Choosing(seen, existing) =>
      site == before && NoLabel(before, r.app) && IsHeld(before, r.app, seen) && existing == before.Exists(r.app)
    case Storing(name) =>
      && NoLabel(before, r.app) && before.Exists(r.app) && MayBeChosen(before, r.app, hash, name)
      && site == before.(issued := before.issued[name := r.app])
    case Answered(name, _) => Issues(before, r.app, hash, name, site)
    case Refused(_) => false
  }

  lemma LookGoesOn(site: Site, app: string, left: set<string>, seen: set<string>, other: string)
    requires SeenWithout(site, app, left, seen) && left <= site.apps && app !in left && other in left
    ensures SeenWithout(site, app, left - {other}, seen + HeldOf(other, Stored(site, other)))
  {
    forall name
      ensures name in seen + HeldOf(other, Stored(site, other)) <==>
              exists o <- site.apps :: o != app && o !in left - {other} && name in HeldOf(o, Stored(site, o))
    {
      if name in HeldOf(other, Stored(site, other)) {
        assert other != app && other !in left - {other};
      }
    }
  }

  lemma ChoiceGoesOn(before: Site, hash: Hash, s: State, i: nat, name: string)
    requires i < |s.requests| && OnItsWay(before, hash, s.requests[i], s.site)
    requires Enabled(s, Choose(i, name, true), hash, true)
    ensures OnItsWay(before, hash, AfterChoice(s, i, name, true).requests[i], AfterChoice(s, i, name, true).site)
  {
    var r := s.requests[i];
    ChosenIsNobodyElses(before.issued, r.app, r.phase.seen, hash, name);
    assert MayBeChosen(before, r.app, hash, name);
    assert name in before.issued ==> before.issued[name := r.app] == before.issued;
  }

  lemma StepGoesOn(before: Site, hash: Hash, s: State, i: nat, m: Move)
    requires i < |s.requests| && OnItsWay(before, hash, s.requests[i], s.site)
    requires Enabled(s, m, hash, true) && OwnMove(m, i)
    ensures |Next(s, m, hash).requests| == |s.requests| && Next(s, m, hash).requests[i].app == s.requests[i].app
    ensures OnItsWay(before, hash, Next(s, m, hash).requests[i], Next(s, m, hash).site)
  {
    var r := s.requests[i];
    match m
    case Look(_, other, _) => LookGoesOn(before, r.app, r.phase.left, r.phase.seen, other);
    case Choose(_, name, _) => ChoiceGoesOn(before, hash, s, i, name);
    case Check(_, _) =>
      forall name ensures name in r.phase.seen <==> HeldByOther(before, r.app, name) {
      }
    case _ =>
  }

  ghost predicate Alone(trace: seq<State>, hash: Hash, i: nat) {
    && trace != []
    && forall k | 0 <= k < |trace| - 1 :: StepsAlone(trace[k], trace[k + 1], hash, i)
  }

  ghost predicate StepsAlone(s: State, s': State, hash: Hash, i: nat) {
    exists m: Move :: Enabled(s, m, hash, true) && OwnMove(m, i) && s' == Next(s, m, hash)
  }

  /** Left to itself a request answers, and leaves, just what `Origins.Issues` says. */
  lemma {:induction false} AloneIssues(trace: seq<State>, hash: Hash, i: nat)
    requires Alone(trace, hash, i) && i < |trace[0].requests| && trace[0].requests[i].phase.Asked?
    ensures var last := trace[|trace| - 1];
            && i < |last.requests| && last.requests[i].app == trace[0].requests[i].app
            && OnItsWay(trace[0].site, hash, last.requests[i], last.site)
            && (last.requests[i].phase.Answered? ==>
                  Issues(trace[0].site, last.requests[i].app, hash, last.requests[i].phase.name, last.site))
  {
    var n := |trace| - 1;
    if n > 0 {
      AloneIssues(trace[..n], hash, i);
      assert StepsAlone(trace[n - 1], trace[n], hash, i);
      var m: Move :| Enabled(trace[n - 1], m, hash, true) && OwnMove(m, i) && trace[n] == Next(trace[n - 1], m, hash);
      StepGoesOn(trace[0].site, hash, trace[n - 1], i, m);
    }
  }
}
