/**
 The label calls as the site makes them (src/content/origins.rs), over the
 published names, the stored labels and the list of labels issued, each call
 alone. What they do is said by `Origins`.
 */
module LabelCatalog {
  import opened Wrappers
  import opened Text
  import opened Slug
  import opened Labels
  import opened Origins

  /** Who a label belongs to, on a site at rest: the app that exists and is given it, if there is one. */
  ghost predicate Owner(site: Site, name: string, hash: Hash, r: Option<string>) {
    && (r.Some? ==> site.Exists(r.value) && Stored(site, r.value) == Some(name))
    && forall app, after :: site.Exists(app) && Issues(site, app, hash, name, after) ==> r == Some(app)
  }

  /**
   All that asking for labels leaves: what was stored and issued is still there,
   and what is new is the stored label of an app that exists.
   */
  predicate OnlyIssued(before: Site, after: Site) {
    && Sound(after) && after.apps == before.apps && after.trash == before.trash
    && Grew(before.issued, after.issued) && Grew(before.meta, after.meta)
    && (forall app <- after.meta :: app in before.meta || before.Exists(app))
    && (forall name <- after.issued :: name in before.issued || Stored(after, after.issued[name]) == Some(name))
  }

  /** `app_for_label` on a site at rest: some labels may be issued on the way, and the answer is the owner then. */
  ghost predicate LooksUp(site: Site, name: string, hash: Hash, r: Option<string>, after: Site) {
    OnlyIssued(site, after) && Owner(after, name, hash, r)
  }

  lemma IssuesOnly(site: Site, app: string, hash: Hash, name: string, after: Site)
    requires Sound(site) && HexHash(hash) && site.Exists(app) && Issues(site, app, hash, name, after)
    ensures OnlyIssued(site, after) && Stored(after, app) == Some(name)
  {
    IssuingKeeps(site, app, hash, name, after);
    assert app in site.meta ==> Holds(site.issued, app, site.meta[app]);
  }

  lemma OnlyIssuedTwice(a: Site, b: Site, c: Site)
    requires OnlyIssued(a, b) && OnlyIssued(b, c)
    ensures OnlyIssued(a, c)
  {
  }

  /** A label that is new on the list is that of an app there is. */
  lemma IssuedToKnown(before: Site, after: Site, name: string)
    requires Sound(before) && OnlyIssued(before, after)
    ensures name in after.issued ==>
              if name in before.issued then after.issued[name] == before.issued[name] else after.issued[name] in before.apps
  {
    if name in after.issued && name !in before.issued {
      var app := after.issued[name];
      assert app in before.meta ==> Holds(before.issued, app, before.meta[app]);
    }
  }

  lemma LooksUpLater(site: Site, middle: Site, name: string, hash: Hash, r: Option<string>, after: Site)
    requires OnlyIssued(site, middle) && LooksUp(middle, name, hash, r, after)
    ensures LooksUp(site, name, hash, r, after)
  {
    OnlyIssuedTwice(site, middle, after);
  }

  /**
   `app_for_label` undoes `label_for`: an app that exists asked for its label,
   then any other calls, then that label looked up, answers the app.
   */
  lemma LookupInverts(site: Site, app: string, name: string, given: Site, later: Site, r: Option<string>, after: Site,
                      hash: Hash)
    requires Sound(site) && HexHash(hash) && site.Exists(app)
    ensures Issues(site, app, hash, name, given) && OnlyIssued(given, later) && LooksUp(later, name, hash, r, after)
            ==> r == Some(app)
  {
    if Issues(site, app, hash, name, given) && OnlyIssued(given, later) && LooksUp(later, name, hash, r, after) {
      IssuesOnly(site, app, hash, name, given);
      assert Holds(after.issued, app, after.meta[app]);
      assert Issues(after, app, hash, name, after);
    }
  }

  /**
   And the other way round: the app a label answers, asked for its own, has just
   that label, and nothing more is issued or stored.
   */
  lemma LabelInverts(site: Site, name: string, app: string, middle: Site, own: string, after: Site, hash: Hash)
    requires Sound(site) && HexHash(hash) && LooksUp(site, name, hash, Some(app), middle)
    ensures site.Exists(app) && (Issues(middle, app, hash, own, after) <==> own == name && after == middle)
  {
    assert Holds(middle.issued, app, middle.meta[app]);
  }

  /** Before the lookup as after it: the app whose stored label it is, and nobody else, if there is one. */
  lemma HoldersAnswer(site: Site, app: string, name: string, r: Option<string>, after: Site, hash: Hash)
    requires Sound(site) && HexHash(hash) && site.Exists(app) && LooksUp(site, name, hash, r, after)
    ensures Stored(site, app) == Some(name) ==> r == Some(app)
    ensures r == Some(app) ==> Stored(site, app) in {None, Some(name)}
  {
    if Stored(site, app) == Some(name) {
      assert Holds(site.issued, app, site.meta[app]);
      assert Issues(after, app, hash, name, after);
    }
  }

  lemma HeldIsSmall(names: nat, issued: map<string, string>, app: string, seen: set<string>)
    requires |seen| <= names
    ensures |seen + OthersIssued(issued, app)| <= names + |issued|
  {
    var others := OthersIssued(issued, app);
    assert issued.Keys == others + (issued.Keys - others);
    assert seen + others == seen + (others - seen);
    assert others == (others - seen) + (others * seen);
  }

  /** Each of `apps` has more derived labels than `n`. */
  ghost predicate RoomForEach(hash: Hash, apps: set<string>, n: nat) {
    forall app <- apps :: MoreLabelsThan(hash, app, n)
  }

  /** The app is published and its stored label is this one. */
  predicate HasIt(names: seq<string>, meta: map<string, string>, app: string, name: string) {
    ValidSegment(app) && app in names && app in meta && meta[app] == name
  }

  /** If the app exists, its label is stored and is not this one. */
  predicate HasAnother(names: seq<string>, meta: map<string, string>, app: string, name: string) {
    ValidSegment(app) && app in names ==> app in meta && meta[app] != name
  }

  predicate OthersUpTo(names: seq<string>, meta: map<string, string>, name: string, n: nat) {
    forall i | 0 <= i < |names| && i < n :: HasAnother(names, meta, names[i], name)
  }

  lemma OneMoreAsked(names: seq<string>, before: map<string, string>, after: map<string, string>, name: string, i: nat)
    requires i < |names| && OthersUpTo(names, before, name, i)
    requires Grew(before, after) && HasAnother(names, after, names[i], name)
    ensures OthersUpTo(names, after, name, i + 1)
  {
  }

  class Catalog {
    var names: seq<string>
    var meta: map<string, string>
    var issued: map<string, string>
    const trash: set<(string, string)>
    const hash: Hash

    constructor (hash: Hash)
      ensures View() == Site({}, map[], map[], {}) && this.hash == hash
    {
      names, meta, issued, trash := [], map[], map[], {};
      this.hash := hash;
    }

    ghost function View(): Site
      reads this
    {
      Site((set name <- names), meta, issued, trash)
    }

    /** The app has more derived labels than may be held, with `labels` on the list. */
    ghost predicate Room(app: string, labels: nat)
      reads this
    {
      MoreLabelsThan(hash, app, |names| + labels)
    }

    method FirstUsable(app: string, held: set<string>) returns (own: Option<string>)
      ensures own == None ==> forall name :: !Usable(issued, app, held, name)
      ensures own.Some? ==> LeastUsable(issued, app, held, own.value)
    {
      own := None;
      var left := issued.Keys;
      while left != {}
        invariant left <= issued.Keys
        invariant own == None ==> forall name <- issued.Keys - left :: !Usable(issued, app, held, name)
        invariant own.Some? ==> Usable(issued, app, held, own.value)
        invariant own.Some? ==> forall name <- issued.Keys - left ::
                      Usable(issued, app, held, name) ==> name == own.value || TextLess(own.value, name)
        decreases |left|
      {
        var name :| name in left;
        if Usable(issued, app, held, name) {
          if own == None || TextLess(name, own.value) {
            if own.Some? {
              ghost var least := own.value;
              forall other <- issued.Keys - left | TextLess(least, other) ensures TextLess(name, other) {
                TextLessTransitive(name, least, other);
              }
            }
            own := Some(name);
          } else {
            TextLessTotal(name, own.value);
          }
        }
        left := left - {name};
      }
    }

    /** The labels other published apps hold, one look at each. */
    method HeldByOthers(app: string) returns (held: set<string>)
      ensures IsHeld(View(), app, held) && |held| <= |names|
    {
      held := {};
      var i := 0;
      while i < |names|
        invariant 0 <= i <= |names| && |held| <= i
        invariant forall name :: name in held <==>
                    exists j | 0 <= j < i :: names[j] != app && name in HeldOf(names[j], Stored(View(), names[j]))
      {
        if names[i] != app {
          held := held + HeldOf(names[i], if names[i] in meta then Some(meta[names[i]]) else None);
        }
        i := i + 1;
      }
    }

    /** The choice the catalog is asked to make while it holds the list. */
    method Choose(app: string, seen: set<string>) returns (name: string)
      requires |seen| <= |names| && Room(app, |issued|)
      ensures Chosen(issued, app, seen, hash, name)
    {
      var held := seen + OthersIssued(issued, app);
      var own := FirstUsable(app, held);
      if own.Some? {
        name := own.value;
      } else {
        HeldIsSmall(|names|, issued, app, seen);
        assert SomeFree(app, held, hash);
        ghost var attempt;
        name, attempt := FreeLabel(app, held, hash);
      }
    }

    method IssuedLabel(app: string) returns (name: string)
      requires Room(app, |issued|)
      modifies this`meta, this`issued
      ensures Issues(old(View()), app, hash, name, View())
      ensures |issued| <= old(|issued|) + 1
    {
      if app in meta && ValidLabel(meta[app]) {
        return meta[app];
      }
      var seen := HeldByOthers(app);
      name := Choose(app, seen);
      if ValidSegment(app) && app in names {
        issued := issued[name := app];
        meta := meta[app := name];
      }
    }

    method LabelIs(app: string, name: string) returns (r: bool)
      requires Sound(View()) && HexHash(hash) && Room(app, |issued|)
      modifies this`meta, this`issued
      ensures OnlyIssued(old(View()), View()) && |issued| <= old(|issued|) + 1
      ensures r <==> View().Exists(app) && Stored(View(), app) == Some(name)
      ensures View().Exists(app) ==> app in meta
    {
      if ValidSegment(app) && app in names {
        var issuedName := IssuedLabel(app);
        IssuesOnly(old(View()), app, hash, issuedName, View());
        r := issuedName == name;
      } else {
        r := false;
      }
    }

    /** A stored label is its app's alone, and nobody else would be given it. */
    lemma HolderOwns(app: string, name: string)
      requires Sound(View()) && HexHash(hash) && View().Exists(app) && Stored(View(), app) == Some(name)
      ensures Owner(View(), name, hash, Some(app))
    {
      forall other, after | View().Exists(other) && Issues(View(), other, hash, name, after) ensures other == app {
        IssuingKeeps(View(), other, hash, name, after);
        assert Holds(issued, app, name);
      }
    }

    /** A label issued to an app that has another, or that is gone, is nobody's. */
    lemma OwnedByNone(name: string, owner: string)
      requires Sound(View()) && HexHash(hash) && name in issued && issued[name] == owner
      requires View().Exists(owner) ==> owner in meta && meta[owner] != name
      ensures Owner(View(), name, hash, None)
    {
      forall app, after | View().Exists(app) ensures !Issues(View(), app, hash, name, after) {
        if Issues(View(), app, hash, name, after) {
          IssuingKeeps(View(), app, hash, name, after);
        }
      }
    }

    /** No app is given what is no label. */
    lemma NoLabelIsNobodys(name: string)
      requires Sound(View()) && HexHash(hash) && !ValidLabel(name)
      ensures Owner(View(), name, hash, None)
    {
      forall app, after | View().Exists(app) ensures !Issues(View(), app, hash, name, after) {
        if Issues(View(), app, hash, name, after) {
          IssuingKeeps(View(), app, hash, name, after);
        }
      }
    }

    /** With every app's label stored, and none of them this one, it is nobody's. */
    lemma AllHaveOthers(name: string)
      requires Sound(View())
      requires forall i | 0 <= i < |names| :: HasAnother(names, meta, names[i], name)
      ensures Owner(View(), name, hash, None)
    {
      forall app, after | View().Exists(app) ensures !Issues(View(), app, hash, name, after) {
        assert app in names && Holds(issued, app, meta[app]);
      }
    }

    /** `holds(app)`: asks it for its label. */
    method AskOne(app: string, name: string, ghost asked: set<string>, ghost most: nat) returns (found: bool)
      requires Sound(View()) && HexHash(hash)
      requires RoomForEach(hash, asked, most) && app in asked && |names| + |issued| <= most
      modifies this`meta, this`issued
      ensures OnlyIssued(old(View()), View()) && |issued| <= old(|issued|) + 1
      ensures if found then HasIt(names, meta, app, name) else HasAnother(names, meta, app, name)
    {
      EachHasRoom(hash, asked, most, app, |names| + |issued|);
      found := LabelIs(app, name);
    }

    /** `app_names(..).find(holds)`: each app in turn is asked for its label. */
    method AskEach(name: string, ghost asked: set<string>, ghost most: nat) returns (r: Option<string>)
      requires Sound(View()) && HexHash(hash)
      requires |names| + (|issued| + |names|) <= most
      requires RoomForEach(hash, asked, most) && forall app <- names :: app in asked
      modifies this`meta, this`issued
      ensures OnlyIssued(old(View()), View())
      ensures r.Some? ==> HasIt(names, meta, r.value, name)
      ensures r.None? ==> OthersUpTo(names, meta, name, |names|)
    {
      var i := 0;
      while i < |names|
        invariant 0 <= i <= |names| && |issued| <= old(|issued|) + i
        invariant OnlyIssued(old(View()), View())
        invariant OthersUpTo(names, meta, name, i)
      {
        ghost var before := View();
        var found := AskOne(names[i], name, asked, most);
        OnlyIssuedTwice(old(View()), before, View());
        if found {
          return Some(names[i]);
        }
        OneMoreAsked(names, before.meta, meta, name, i);
        i := i + 1;
      }
      r := None;
    }

    method ScanFor(name: string, ghost asked: set<string>, ghost most: nat) returns (r: Option<string>)
      requires Sound(View()) && HexHash(hash)
      requires |names| + (|issued| + |names|) <= most
      requires RoomForEach(hash, asked, most) && forall app <- names :: app in asked
      modifies this`meta, this`issued
      ensures LooksUp(old(View()), name, hash, r, View())
    {
      r := AskEach(name, asked, most);
      if r.Some? {
        HolderOwns(r.value, name);
      } else {
        AllHaveOthers(name);
      }
    }

    /** The app the list names, if the label is its own still. */
    method AskOwner(name: string) returns (r: Option<string>)
      requires Sound(View()) && HexHash(hash) && name in issued && Room(issued[name], |issued|)
      modifies this`meta, this`issued
      ensures LooksUp(old(View()), name, hash, r, View())
    {
      var owner := issued[name];
      var theirs := LabelIs(owner, name);
      if theirs {
        HolderOwns(owner, name);
        return Some(owner);
      }
      OwnedByNone(name, owner);
      return None;
    }

    /** The app the list names for a label, or else the first that has it. */
    method AskListed(name: string, ghost asked: set<string>, ghost most: nat) returns (r: Option<string>)
      requires Sound(View()) && HexHash(hash)
      requires |names| + (|issued| + |names|) <= most
      requires RoomForEach(hash, asked, most) && forall app <- names :: app in asked
      requires name in issued ==> issued[name] in asked
      modifies this`meta, this`issued
      ensures LooksUp(old(View()), name, hash, r, View())
    {
      if name in issued {
        EachHasRoom(hash, asked, most, issued[name], |names| + |issued|);
        r := AskOwner(name);
      } else {
        r := ScanFor(name, asked, most);
      }
    }

    method AppForLabel(name: string) returns (r: Option<string>)
      requires Sound(View()) && HexHash(hash)
      requires RoomForEach(hash, Asked(name), |names| + (|issued| + |names| + 1))
      modifies this`meta, this`issued
      ensures LooksUp(old(View()), name, hash, r, View())
    {
      ghost var asked, most := Asked(name), |names| + (|issued| + |names| + 1);
      if !ValidLabel(name) {
        NoLabelIsNobodys(name);
        return None;
      }
      EachHasRoom(hash, asked, most, name, |names| + |issued|);
      var own := LabelIs(name, name);
      if own {
        HolderOwns(name, name);
        return Some(name);
      }
      ghost var middle := View();
      IssuedToKnown(old(View()), middle, name);
      r := AskListed(name, asked, most);
      LooksUpLater(old(View()), middle, name, hash, r, View());
    }

    /** Every app a lookup may ask for its label. */
    ghost function Asked(name: string): set<string>
      reads this
    {
      (set app <- names) + issued.Values + {name}
    }
  }

  lemma FewerToo(hash: Hash, app: string, more: nat, fewer: nat)
    requires MoreLabelsThan(hash, app, more) && fewer <= more
    ensures MoreLabelsThan(hash, app, fewer)
  {
    forall held: set<string> | |held| <= fewer ensures SomeFree(app, held, hash) {
      assert |held| <= more;
    }
  }

  lemma EachHasRoom(hash: Hash, apps: set<string>, more: nat, app: string, fewer: nat)
    requires RoomForEach(hash, apps, more) && app in apps && fewer <= more
    ensures MoreLabelsThan(hash, app, fewer)
  {
    FewerToo(hash, app, more, fewer);
  }
}
