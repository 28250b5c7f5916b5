/**
 The host label of each app (src/content/origins.rs) over the catalog's list of
 every label ever issued (src/content/catalog/files.rs), one request at a time.
 `OriginRuns` has any number of them at once.
 */
module Origins {
  import opened Wrappers
  import opened Text
  import opened Slug
  import opened Labels

  /** What is published, each app's stored label, every label ever issued, and the labels put away with removed apps. */
  datatype Site = Site(
    apps: set<string>,
    meta: map<string, string>,
    issued: map<string, string>,
    trash: set<(string, string)>
  ) {
    predicate Exists(app: string) {
      ValidSegment(app) && app in apps
    }
  }

  /** The list says `name` is `app`'s. */
  predicate Holds(issued: map<string, string>, app: string, name: string) {
    ValidLabel(name) && name in issued && issued[name] == app
  }

  /** Every label stored or put away is one the list says is that app's. */
  predicate Sound(site: Site) {
    && (forall app <- site.meta :: Holds(site.issued, app, site.meta[app]))
    && (forall put <- site.trash :: Holds(site.issued, put.0, put.1))
  }

  /** What looking at one other app adds: its stored label, or its name if that is a label. */
  function HeldOf(other: string, stored: Option<string>): set<string> {
    match stored
    case Some(name) => {name}
    case None => if OwnLabel(other) then {other} else {}
  }

  function Stored(site: Site, app: string): Option<string> {
    if app in site.meta then Some(site.meta[app]) else None
  }

  /** A name held by another published app, by its label or by its name. */
  ghost predicate HeldByOther(site: Site, app: string, name: string) {
    exists other <- site.apps :: other != app && name in HeldOf(other, Stored(site, other))
  }

  function OthersIssued(issued: map<string, string>, app: string): set<string> {
    set name <- issued | issued[name] != app
  }

  /** A label issued to `app` before that nobody else holds now. */
  predicate Usable(issued: map<string, string>, app: string, held: set<string>, name: string) {
    Holds(issued, app, name) && name !in held
  }

  /**
   The choice made with the list held: the first of its own labels it can still
   use, else the first derived one nobody holds or ever held.
   */
  ghost predicate Chosen(issued: map<string, string>, app: string, seen: set<string>, hash: Hash, name: string) {
    var held := seen + OthersIssued(issued, app);
    if exists own :: Usable(issued, app, held, own) then LeastUsable(issued, app, held, name)
    else FirstFree(app, held, hash, name)
  }

  ghost predicate LeastUsable(issued: map<string, string>, app: string, held: set<string>, name: string) {
    && Usable(issued, app, held, name)
    && forall own :: Usable(issued, app, held, own) ==> own == name || TextLess(name, own)
  }

  /**
   The catalog's own step: it refuses to record what the list has for someone
   else, and adds what is new. When the list cannot be written the label is given all the same.
   */
  function Assigned(issued: map<string, string>, app: string, record: bool, name: string, written: bool)
    : Result<map<string, string>, string>
  {
    if record && name in issued && issued[name] != app then Err(issued[name])
    else if record && name !in issued && written then Ok(issued[name := app])
    else Ok(issued)
  }

  /** A list that only grew: nothing issued is taken back or given to another. */
  predicate Grew(before: map<string, string>, after: map<string, string>) {
    forall name <- before :: name in after && after[name] == before[name]
  }

  predicate IsListed(issued: map<string, string>, name: string, app: string) {
    name in issued && issued[name] == app
  }

  /**
   A label on the list for someone else is refused, naming them, exactly when it is
   to be recorded; and the list only grows, by that label for that app.
   */
  lemma NeverRecordedTwice(issued: map<string, string>, app: string, record: bool, name: string, written: bool)
    ensures var r := Assigned(issued, app, record, name, written);
            && (r.Err? <==> record && exists other :: other != app && IsListed(issued, name, other))
            && (r.Err? ==> IsListed(issued, name, r.error))
            && (r.Ok? ==> Grew(issued, r.value))
            && (r.Ok? ==> forall other <- r.value :: other in issued || (other == name && r.value[name] == app))
            && (r.Ok? && record && written ==> IsListed(r.value, name, app))
            && (r.Ok? && !(record && written) ==> r.value == issued)
  {
    assert name in issued ==> IsListed(issued, name, issued[name]);
  }

  lemma ChosenIsNobodyElses(issued: map<string, string>, app: string, seen: set<string>, hash: Hash, name: string)
    requires Chosen(issued, app, seen, hash, name)
    ensures name in issued ==> issued[name] == app
    ensures name !in seen
  {
    var held := seen + OthersIssued(issued, app);
    assert name !in held;
    assert name in issued && issued[name] != app ==> name in OthersIssued(issued, app);
  }

  lemma ChosenIsValid(issued: map<string, string>, app: string, seen: set<string>, hash: Hash, name: string)
    requires ValidSegment(app) && HexHash(hash) && Chosen(issued, app, seen, hash, name)
    ensures ValidLabel(name)
  {
    var held := seen + OthersIssued(issued, app);
    if FirstFree(app, held, hash, name) {
      var attempt: nat :| FreeAt(app, held, hash, name, attempt);
      DerivedIsLegal(app, attempt, hash);
    }
  }

  /**
   The refusal the catalog keeps for a choice gone wrong is never met, what is
   issued only grows, and a label that is given is the app's on the list, unless
   it was new and the list could not be written.
   */
  lemma ChoicesAreNeverRefused(issued: map<string, string>, app: string, record: bool, seen: set<string>, hash: Hash,
                               name: string, written: bool)
    requires Chosen(issued, app, seen, hash, name)
    ensures Assigned(issued, app, record, name, written).Ok?
    ensures Grew(issued, Assigned(issued, app, record, name, written).value)
    ensures record && ValidLabel(name) ==>
              (Holds(Assigned(issued, app, record, name, written).value, app, name) <==> written || name in issued)
  {
    ChosenIsNobodyElses(issued, app, seen, hash, name);
  }

  // --- one request, with nothing between its steps ---

  /** The labels other published apps hold. */
  ghost predicate IsHeld(site: Site, app: string, seen: set<string>) {
    forall name :: name in seen <==> HeldByOther(site, app, name)
  }

  /** `issued_label` on a site at rest: the stored label, else one chosen, issued and stored. */
  ghost predicate Issues(site: Site, app: string, hash: Hash, name: string, after: Site) {
    if app in site.meta && ValidLabel(site.meta[app]) then name == site.meta[app] && after == site
    else
      && (exists seen: set<string> :: IsHeld(site, app, seen) && Chosen(site.issued, app, seen, hash, name))
      && after == (if site.Exists(app) then site.(issued := site.issued[name := app], meta := site.meta[app := name])
                   else site)
  }

  /** Putting on the list a label that is not another's, and storing it. */
  lemma StoringKeeps(site: Site, app: string, name: string, after: Site)
    requires Sound(site) && ValidLabel(name) && (name in site.issued ==> site.issued[name] == app)
    requires after == site.(issued := site.issued[name := app], meta := site.meta[app := name])
    ensures Sound(after) && Grew(site.issued, after.issued)
  {
  }

  lemma IssuingKeeps(site: Site, app: string, hash: Hash, name: string, after: Site)
    requires Sound(site) && HexHash(hash) && Issues(site, app, hash, name, after)
    ensures Sound(after) && Grew(site.issued, after.issued)
    ensures after.apps == site.apps
    ensures forall other | other != app :: Stored(after, other) == Stored(site, other)
    ensures site.Exists(app) ==> ValidLabel(name) && Stored(after, app) == Some(name)
    ensures name in site.issued ==> site.issued[name] == app
    ensures forall own <- after.issued :: own in site.issued || after.issued[own] == app
  {
    if !(app in site.meta && ValidLabel(site.meta[app])) {
      var seen: set<string> :| IsHeld(site, app, seen) && Chosen(site.issued, app, seen, hash, name);
      ChosenIsNobodyElses(site.issued, app, seen, hash, name);
      if site.Exists(app) {
        ChosenIsValid(site.issued, app, seen, hash, name);
        StoringKeeps(site, app, name, after);
      }
    }
  }

  /** Asked again, an app that exists has the label it has. */
  lemma LabelsStay(site: Site, app: string, hash: Hash, name: string, after: Site, again: string, later: Site)
    requires Sound(site) && HexHash(hash) && site.Exists(app)
    requires Issues(site, app, hash, name, after) && Issues(after, app, hash, again, later)
    ensures again == name && later == after
  {
    IssuingKeeps(site, app, hash, name, after);
  }

  /** No two apps that exist are given one label, in whichever order they ask. */
  lemma NoTwoShareALabel(site: Site, a: string, b: string, hash: Hash, nameA: string, middle: Site, nameB: string, after: Site)
    requires Sound(site) && HexHash(hash) && a != b && site.Exists(a) && site.Exists(b)
    requires Issues(site, a, hash, nameA, middle) && Issues(middle, b, hash, nameB, after)
    ensures nameA != nameB
  {
    IssuingKeeps(site, a, hash, nameA, middle);
    IssuingKeeps(middle, b, hash, nameB, after);
    assert Holds(middle.issued, a, nameA);
  }

  // --- names that are labels ---

  /** A published name that is a label and has none stored is given to nobody else, unless it is theirs already. */
  lemma OwnNameStaysFree(site: Site, app: string, other: string, hash: Hash, name: string, after: Site)
    requires Sound(site) && app in site.apps && app !in site.meta && OwnLabel(app) && other != app
    requires Issues(site, other, hash, name, after)
    ensures name == app ==> Stored(site, other) == Some(app)
  {
    if other in site.meta {
      assert Holds(site.issued, other, site.meta[other]);
    } else {
      var seen: set<string> :| IsHeld(site, other, seen) && Chosen(site.issued, other, seen, hash, name);
      ChosenIsNobodyElses(site.issued, other, seen, hash, name);
      assert app in HeldOf(app, Stored(site, app));
      assert HeldByOther(site, other, app);
    }
  }

  /** Asked for the first time, an app whose name is a label gets that name exactly when it was never issued to another. */
  lemma OwnNameFirst(site: Site, app: string, hash: Hash, name: string, after: Site)
    requires Sound(site) && OwnLabel(app) && app !in site.meta
    requires forall own <- site.issued :: site.issued[own] != app
    requires Issues(site, app, hash, name, after)
    ensures name == app <==> app !in site.issued
  {
    var seen: set<string> :| IsHeld(site, app, seen) && Chosen(site.issued, app, seen, hash, name);
    var held := seen + OthersIssued(site.issued, app);
    ChosenIsNobodyElses(site.issued, app, seen, hash, name);
    assert forall own :: !Usable(site.issued, app, held, own);
    forall other <- site.apps | other != app ensures app in HeldOf(other, Stored(site, other)) ==> app in site.issued {
      assert other in site.meta ==> Holds(site.issued, other, site.meta[other]);
    }
    if app !in site.issued {
      assert FreeAt(app, held, hash, Derived(app, 0, hash), 0);
      FirstFreeIsOne(app, held, hash, name, app);
    }
  }

  // --- a name published again ---

  /** `name` is the name of another published app that has no label yet. */
  predicate OthersName(site: Site, app: string, name: string) {
    name != app && name in site.apps && name !in site.meta && OwnLabel(name)
  }

  lemma OwnIsFree(site: Site, app: string, seen: set<string>, name: string)
    requires Sound(site) && IsHeld(site, app, seen) && Holds(site.issued, app, name)
    ensures name in seen + OthersIssued(site.issued, app) <==> OthersName(site, app, name)
  {
    if HeldByOther(site, app, name) {
      var other :| other in site.apps && other != app && name in HeldOf(other, Stored(site, other));
      assert other in site.meta ==> Holds(site.issued, other, site.meta[other]);
    }
    if OthersName(site, app, name) {
      assert name in HeldOf(name, Stored(site, name));
    }
  }

  /**
   An app that lost its stored label, as one published again under its old name
   has, gets a label it was issued before exactly when one of those is not by
   now the name of another app that has none stored.
   */
  lemma OldLabelComesBack(site: Site, app: string, hash: Hash, name: string, after: Site)
    requires Sound(site) && HexHash(hash) && site.Exists(app) && app !in site.meta
    requires Issues(site, app, hash, name, after)
    ensures name in site.issued <==> exists own :: Holds(site.issued, app, own) && !OthersName(site, app, own)
  {
    var seen: set<string> :| IsHeld(site, app, seen) && Chosen(site.issued, app, seen, hash, name);
    var held := seen + OthersIssued(site.issued, app);
    ChosenIsNobodyElses(site.issued, app, seen, hash, name);
    ChosenIsValid(site.issued, app, seen, hash, name);
    forall own | Holds(site.issued, app, own)
      ensures Usable(site.issued, app, held, own) <==> !OthersName(site, app, own)
    {
      OwnIsFree(site, app, seen, own);
    }
    if name in site.issued {
      assert Usable(site.issued, app, held, name);
    }
  }

  /**
   Not always, then: any app whose name is no label loses the one it was issued,
   if an app of that very name is published while it is gone.
   */
  lemma OldLabelLost(app: string, hash: Hash) returns (site: Site, after: Site)
    requires ValidSegment(app) && !OwnLabel(app) && HexHash(hash) && hash(app, 0) != hash(app, 1)
    ensures Sound(site) && site.Exists(app) && Holds(site.issued, app, Derived(app, 0, hash))
    ensures Issues(site, app, hash, Derived(app, 1, hash), after)
    ensures Derived(app, 1, hash) != Derived(app, 0, hash)
  {
    var first, second := Derived(app, 0, hash), Derived(app, 1, hash);
    DerivedIsLegal(app, 0, hash);
    AttemptsPart(app, hash, 0, 1);
    site := Site({app, first}, map[], map[first := app], {});
    after := site.(issued := site.issued[second := app], meta := site.meta[app := second]);
    TakenByName(site, app, first);
    NextIsChosen(app, hash, site.issued, first, second);
  }

  lemma NextIsChosen(app: string, hash: Hash, issued: map<string, string>, first: string, second: string)
    requires issued == map[first := app] && second != first
    requires first == Derived(app, 0, hash) && second == Derived(app, 1, hash)
    ensures Chosen(issued, app, {first}, hash, second)
  {
    var held := {first} + OthersIssued(issued, app);
    assert held == {first};
    SecondIsFree(app, held, hash, first, second);
    assert forall own :: !Usable(issued, app, held, own);
  }

  lemma SecondIsFree(app: string, held: set<string>, hash: Hash, first: string, second: string)
    requires held == {first} && second != first
    requires first == Derived(app, 0, hash) && second == Derived(app, 1, hash)
    ensures FirstFree(app, held, hash, second)
  {
    assert FreeAt(app, held, hash, second, 1);
  }

  lemma TakenByName(site: Site, app: string, name: string)
    requires site.apps == {app, name} && site.meta == map[] && app != name && OwnLabel(name)
    ensures IsHeld(site, app, {name})
  {
    assert name in HeldOf(name, Stored(site, name));
  }
}
