/**
 The host labels derived from app names (src/content/origins.rs): which names
 are labels as they stand, what any other becomes, and the search for a free
 one. The hash of a name and an attempt is a parameter.
 */
module Labels {
  import opened Text
  import opened Slug

  const MAX_LABEL: nat := 63
  /** What is left for the name ahead of a hyphen and eight hex digits. */
  const MAX_BASE: nat := MAX_LABEL - 9

  /** The first four bytes of the digest of a name and an attempt, in hex. */
  type Hash = (string, nat) -> string

  predicate LabelChar(c: char) {
    IsLower(c) || IsDigit(c) || c == '-'
  }

  /** One part of a host name, in lower case (RFC 1035, section 2.3.1; RFC 1123, section 2.1, for a digit in front). */
  predicate ValidLabel(name: string) {
    && 1 <= |name| <= MAX_LABEL
    && name[0] != '-'
    && name[|name| - 1] != '-'
    && Plain(name)
  }

  predicate Plain(s: string) {
    forall i | 0 <= i < |s| :: LabelChar(s[i])
  }

  /** Hyphens in the third and fourth places (RFC 5890, section 2.3.1). */
  predicate IdnaReserved(name: string) {
    |name| >= 4 && name[2] == '-' && name[3] == '-'
  }

  predicate OwnLabel(app: string) {
    ValidLabel(app) && !IdnaReserved(app)
  }

  function LoweredChar(c: char): char {
    if c == '_' then '-' else LowerChar(c)
  }

  function Lowered(app: string): (t: string)
    ensures |t| == |app|
    ensures forall i | 0 <= i < |app| :: t[i] == LoweredChar(app[i])
  {
    seq(|app|, i requires 0 <= i < |app| => LoweredChar(app[i]))
  }

  /** `s.trim_matches('-')`, cut to leave room for the suffix. */
  function Cut(s: string): string {
    Take(TrimEnd(TrimStart(s, '-'), '-'), MAX_BASE)
  }

  /** The name lowered and cut, without hyphens at its ends. */
  function Base(app: string): string {
    TrimEnd(Cut(Lowered(app)), '-')
  }

  /** A base that is empty or reserved goes behind `app-`. */
  function BehindApp(base: string): string {
    TrimEnd(Take("app-" + base, MAX_BASE), '-')
  }

  function Front(base: string): string {
    if base == "" || IdnaReserved(base) then BehindApp(base) else base
  }

  function Suffixed(base: string, suffix: string): string {
    Front(base) + "-" + suffix
  }

  /** The label for the `attempt`th try: the name itself first, if it is a label. */
  function Derived(app: string, attempt: nat, hash: Hash): string {
    if attempt == 0 && OwnLabel(app) then app else Suffixed(Base(app), hash(app, attempt))
  }

  predicate IsHex(suffix: string) {
    |suffix| == 8 && forall c <- suffix :: IsDigit(c) || 'a' <= c <= 'f'
  }

  ghost predicate HexHash(hash: Hash) {
    forall app, attempt :: IsHex(hash(app, attempt))
  }

  method DeriveLabel(app: string, attempt: nat, hash: Hash) returns (name: string)
    ensures name == Derived(app, attempt, hash)
  {
    if attempt == 0 && OwnLabel(app) {
      return app;
    }
    var cut := Cut(Lowered(app));
    var base := cut;
    while |base| > 0 && base[|base| - 1] == '-'
      invariant base <= cut && TrimEnd(base, '-') == TrimEnd(cut, '-')
    {
      base := base[..|base| - 1];
    }
    var suffix := hash(app, attempt);
    if base == "" || IdnaReserved(base) {
      name := BehindApp(base) + "-" + suffix;
    } else {
      name := base + "-" + suffix;
    }
  }

  // --- what is derived is a label ---

  /** One to sixty-three small letters, digits and hyphens, no hyphen at an end, nor two in the third and fourth places. */
  predicate IsHostLabel(name: string) {
    && 1 <= |name| <= 63 && name[0] != '-' && name[|name| - 1] != '-'
    && (forall i | 0 <= i < |name| :: 'a' <= name[i] <= 'z' || '0' <= name[i] <= '9' || name[i] == '-')
    && !(|name| >= 4 && name[2..4] == "--")
  }

  /** What can stand ahead of a suffix. */
  predicate BaseShape(base: string) {
    && 1 <= |base| <= MAX_BASE
    && base[0] != '-' && base[|base| - 1] != '-'
    && Plain(base)
    && !IdnaReserved(base)
  }

  lemma SuffixMakesLabel(base: string, suffix: string)
    requires BaseShape(base) && IsHex(suffix)
    ensures OwnLabel(base + "-" + suffix)
  {
    var name := base + "-" + suffix;
    assert name[|name| - 1] == suffix[7] && suffix[7] in suffix;
    assert suffix[0] in suffix && suffix[1] in suffix;
  }

  lemma LoweredPlain(app: string)
    requires ValidSegment(app)
    ensures Plain(Lowered(app))
  {
    forall i | 0 <= i < |app| ensures LabelChar(Lowered(app)[i]) {
      assert app[i] in app;
    }
  }

  lemma StartKeeps(s: string)
    requires Plain(s)
    ensures Plain(TrimStart(s, '-'))
  {
    var start := TrimStart(s, '-');
    assert forall i | 0 <= i < |start| :: start[i] == s[|s| - |start| + i];
  }

  lemma TrimmedKeeps(s: string)
    requires Plain(s) && (s != "" ==> s[0] != '-')
    ensures |TrimEnd(s, '-')| <= |s| && Plain(TrimEnd(s, '-'))
    ensures TrimEnd(s, '-') != "" ==> TrimEnd(s, '-')[0] != '-'
  {
  }

  lemma CutKeeps(s: string)
    requires Plain(s)
    ensures |Cut(s)| <= MAX_BASE && Plain(Cut(s))
    ensures Cut(s) != "" ==> Cut(s)[0] != '-'
  {
    var start := TrimStart(s, '-');
    StartKeeps(s);
    TrimmedKeeps(start);
    TakenKeeps(TrimEnd(start, '-'));
  }

  lemma TakenKeeps(s: string)
    requires Plain(s) && (s != "" ==> s[0] != '-')
    ensures |Take(s, MAX_BASE)| <= MAX_BASE && Plain(Take(s, MAX_BASE))
    ensures Take(s, MAX_BASE) != "" ==> Take(s, MAX_BASE)[0] != '-'
  {
  }

  /** Trimming stops at the last character that is another one. */
  lemma {:induction false} TrimStops(s: string, c: char, i: nat)
    requires i < |s| && s[i] != c
    ensures |TrimEnd(s, c)| > i
  {
    if s[|s| - 1] == c {
      TrimStops(s[..|s| - 1], c, i);
    }
  }

  /** Behind `app-` any base does: cut and trimmed it still starts with `app`. */
  lemma BehindAppShape(base: string)
    requires Plain(base)
    ensures BaseShape(BehindApp(base))
  {
    var cut := Take("app-" + base, MAX_BASE);
    assert cut[0] == 'a' && cut[2] == 'p';
    TrimStops(cut, '-', 2);
    TrimmedKeeps(cut);
  }

  lemma BasePlain(app: string)
    requires ValidSegment(app)
    ensures |Base(app)| <= MAX_BASE && Plain(Base(app))
    ensures Base(app) != "" ==> Base(app)[0] != '-' && Base(app)[|Base(app)| - 1] != '-'
  {
    LoweredPlain(app);
    CutKeeps(Lowered(app));
    TrimmedKeeps(Cut(Lowered(app)));
  }

  lemma SuffixedIsLegal(base: string, suffix: string)
    requires |base| <= MAX_BASE && Plain(base) && IsHex(suffix)
    requires base != "" ==> base[0] != '-' && base[|base| - 1] != '-'
    ensures OwnLabel(Suffixed(base, suffix))
  {
    FrontShape(base);
    SuffixMakesLabel(Front(base), suffix);
  }

  lemma FrontShape(base: string)
    requires |base| <= MAX_BASE && Plain(base)
    requires base != "" ==> base[0] != '-' && base[|base| - 1] != '-'
    ensures BaseShape(Front(base))
  {
    BehindAppShape(base);
  }

  /**
   For every name an app can have and every attempt, what is derived is a label
   that may be issued: legal, and none of those IDNA reserves.
   */
  lemma DerivedIsLegal(app: string, attempt: nat, hash: Hash)
    requires ValidSegment(app) && IsHex(hash(app, attempt))
    ensures ValidLabel(Derived(app, attempt, hash)) && !IdnaReserved(Derived(app, attempt, hash))
    ensures IsHostLabel(Derived(app, attempt, hash))
  {
    if attempt != 0 || !OwnLabel(app) {
      LaterIsSuffixed(app, attempt, hash);
      LaterIsLegal(app, hash(app, attempt));
    }
    OwnLabelIs(Derived(app, attempt, hash));
  }

  lemma LaterIsSuffixed(app: string, attempt: nat, hash: Hash)
    requires attempt != 0 || !OwnLabel(app)
    ensures Derived(app, attempt, hash) == Suffixed(Base(app), hash(app, attempt))
  {
  }

  lemma LaterIsLegal(app: string, suffix: string)
    requires ValidSegment(app) && IsHex(suffix)
    ensures OwnLabel(Suffixed(Base(app), suffix))
  {
    BasePlain(app);
    SuffixedIsLegal(Base(app), suffix);
  }

  // --- what it spells ---

  /** A letter by its small form, a digit by itself, a hyphen or an underscore by a hyphen. */
  predicate Spells(c: char, d: char) {
    || ('A' <= c <= 'Z' && d as int == c as int + 32)
    || (('a' <= c <= 'z' || '0' <= c <= '9') && d == c)
    || (c in {'-', '_'} && d == '-')
  }

  predicate Dashes(s: string) {
    forall i | 0 <= i < |s| :: s[i] in {'-', '_'}
  }

  lemma LoweredSpells(app: string)
    requires ValidSegment(app)
    ensures forall i | 0 <= i < |app| :: Spells(app[i], Lowered(app)[i]) && (Lowered(app)[i] == '-' <==> app[i] in {'-', '_'})
  {
    forall i | 0 <= i < |app| ensures Spells(app[i], Lowered(app)[i]) && (Lowered(app)[i] == '-' <==> app[i] in {'-', '_'}) {
      assert app[i] in app;
    }
  }

  predicate Hyphens(s: string) {
    forall i | 0 <= i < |s| :: s[i] == '-'
  }

  function UpTo54(s: string, from: nat): (to: nat)
    ensures to <= |s| && (from <= |s| ==> from <= to)
  {
    if from + 54 < |s| then from + 54 else |s|
  }

  lemma CutStretch(start: string)
    ensures var base := TrimEnd(Take(TrimEnd(start, '-'), MAX_BASE), '-');
            && base <= start && |base| <= 54
            && forall k | |base| <= k < |start| && k < 54 :: start[k] == '-'
  {
    var ends := TrimEnd(start, '-');
    var cut := Take(ends, MAX_BASE);
    var base := TrimEnd(cut, '-');
    assert base <= cut <= ends <= start;
    TrimEndTakes(start, '-');
    TrimEndTakes(cut, '-');
    forall k | |base| <= k < |start| && k < 54 ensures start[k] == '-' {
      if k < |cut| {
        assert start[k] == cut[k];
      }
    }
  }

  /** A stretch of it from there, with hyphens before, and after as far as the cut. */
  predicate IsStretch(s: string, from: nat, base: string) {
    && from + |base| <= UpTo54(s, from) && base == s[from..from + |base|]
    && Hyphens(s[..from]) && Hyphens(s[from + |base|..UpTo54(s, from)])
  }

  lemma StretchOf(s: string, start: string, base: string, from: nat)
    requires from <= |s| && start == s[from..] && base <= start && |base| <= 54 && Hyphens(s[..from])
    requires forall k | |base| <= k < |start| && k < 54 :: start[k] == '-'
    ensures IsStretch(s, from, base)
  {
    var rest := s[from + |base|..UpTo54(s, from)];
    forall i | 0 <= i < |rest| ensures rest[i] == '-' {
      assert rest[i] == start[|base| + i];
    }
  }

  lemma CutIs(s: string)
    ensures TrimEnd(Cut(s), '-') == TrimEnd(Take(TrimEnd(TrimStart(s, '-'), '-'), MAX_BASE), '-')
  {
  }

  lemma CutIsAStretch(s: string) returns (from: nat)
    ensures IsStretch(s, from, TrimEnd(Cut(s), '-'))
  {
    var start := TrimStart(s, '-');
    from := |s| - |start|;
    TrimStartTakes(s, '-');
    CutStretch(start);
    CutIs(s);
    StretchOf(s, start, TrimEnd(Take(TrimEnd(start, '-'), MAX_BASE), '-'), from);
  }

  /** What is spelled by hyphens is hyphens and underscores. */
  lemma SpeltByHyphens(app: string, lowered: string, i: nat, j: nat)
    requires |lowered| == |app| && i <= j <= |app| && Hyphens(lowered[i..j])
    requires forall k | 0 <= k < |app| :: lowered[k] == '-' <==> app[k] in {'-', '_'}
    ensures Dashes(app[i..j])
  {
    forall k | 0 <= k < j - i ensures app[i..j][k] in {'-', '_'} {
      assert lowered[i..j][k] == lowered[i + k];
    }
  }

  /** The name spelled out from there, with hyphens and underscores before, and after up to the fifty-fourth character. */
  predicate SpelledFrom(app: string, from: nat, base: string) {
    && from + |base| <= UpTo54(app, from)
    && (forall i | 0 <= i < |base| :: Spells(app[from + i], base[i]))
    && Dashes(app[..from]) && Dashes(app[from + |base|..UpTo54(app, from)])
  }

  lemma SpeltStretch(app: string, lowered: string, from: nat, base: string)
    requires |lowered| == |app| && IsStretch(lowered, from, base)
    requires forall i | 0 <= i < |app| :: Spells(app[i], lowered[i]) && (lowered[i] == '-' <==> app[i] in {'-', '_'})
    ensures SpelledFrom(app, from, base)
  {
    assert forall i | 0 <= i < |base| :: base[i] == lowered[from + i];
    assert lowered[0..from] == lowered[..from] && app[0..from] == app[..from];
    SpeltByHyphens(app, lowered, 0, from);
    SpeltByHyphens(app, lowered, from + |base|, UpTo54(app, from));
  }

  /**
   What a label that is not the name itself says: the name, spelled out from its
   first letter or digit for up to fifty-four characters, with no hyphen at the end.
   */
  lemma BaseSpellsTheName(app: string) returns (from: nat)
    requires ValidSegment(app)
    ensures SpelledFrom(app, from, Base(app))
    ensures Base(app) != "" ==> Base(app)[0] != '-' && Base(app)[|Base(app)| - 1] != '-'
  {
    BasePlain(app);
    from := CutIsAStretch(Lowered(app));
    LoweredSpells(app);
    SpeltStretch(app, Lowered(app), from, Base(app));
  }

  lemma BehindAppStarts(base: string)
    ensures StartsWith(BehindApp(base), "app")
  {
    var cut := Take("app-" + base, MAX_BASE);
    assert cut[..3] == "app" && cut[2] == 'p';
    TrimStops(cut, '-', 2);
    assert BehindApp(base)[..3] == cut[..3];
  }

  /** Two hyphens where IDNA has its own. */
  predicate DashesInside(base: string) {
    |base| >= 4 && base[2..4] == "--"
  }

  lemma FrontIs(base: string)
    ensures if base == "" || DashesInside(base) then StartsWith(Front(base), "app") else Front(base) == base
  {
    assert |base| >= 4 ==> (base[2..4] == "--" <==> base[2] == '-' && base[3] == '-');
    BehindAppStarts(base);
  }

  lemma StartsAndEnds(front: string, tail: string, start: string)
    ensures EndsWith(front + tail, tail)
    ensures StartsWith(front, start) ==> StartsWith(front + tail, start)
  {
    if StartsWith(front, start) {
      assert (front + tail)[..|start|] == front[..|start|] == start;
    }
  }

  lemma SuffixedIs(base: string, suffix: string)
    ensures Suffixed(base, suffix) == Front(base) + ("-" + suffix)
  {
    assert Front(base) + "-" + suffix == Front(base) + ("-" + suffix);
  }

  lemma LaterIsInFront(app: string, attempt: nat, hash: Hash)
    requires attempt > 0 || !IsHostLabel(app)
    ensures Derived(app, attempt, hash) == Front(Base(app)) + ("-" + hash(app, attempt))
  {
    OwnLabelIs(app);
    LaterIsSuffixed(app, attempt, hash);
    SuffixedIs(Base(app), hash(app, attempt));
  }

  /** And the hash of the exact name behind it; `app` in front where nothing is spelled, or what is would be reserved. */
  lemma LabelsSpellNames(app: string, attempt: nat, hash: Hash)
    requires attempt > 0 || !IsHostLabel(app)
    ensures EndsWith(Derived(app, attempt, hash), "-" + hash(app, attempt))
    ensures if Base(app) == "" || DashesInside(Base(app)) then StartsWith(Derived(app, attempt, hash), "app")
            else Derived(app, attempt, hash) == Base(app) + ("-" + hash(app, attempt))
  {
    LaterIsInFront(app, attempt, hash);
    FrontIs(Base(app));
    StartsAndEnds(Front(Base(app)), "-" + hash(app, attempt), "app");
  }

  /** The name itself where it is a label. */
  lemma OwnNamesAreLabels(app: string, hash: Hash)
    ensures Derived(app, 0, hash) == app <== IsHostLabel(app)
  {
    OwnLabelIs(app);
  }

  lemma OwnLabelIs(app: string)
    ensures OwnLabel(app) <==> IsHostLabel(app)
  {
    assert |app| >= 4 ==> (app[2..4] == "--" <==> app[2] == '-' && app[3] == '-');
    assert Plain(app) <==> forall i | 0 <= i < |app| :: 'a' <= app[i] <= 'z' || '0' <= app[i] <= '9' || app[i] == '-';
  }

  // --- the search for a free one ---

  /** The first `attempts` suffixes of a name all differ. */
  ghost predicate DistinctSuffixes(hash: Hash, app: string, attempts: nat) {
    forall i: nat, j: nat | i < j < attempts :: Differ(hash, app, i, j)
  }

  ghost predicate Differ(hash: Hash, app: string, i: nat, j: nat) {
    hash(app, i) != hash(app, j)
  }

  /** The label the search stops at: the first derived one not held. */
  ghost predicate FirstFree(app: string, held: set<string>, hash: Hash, name: string) {
    exists attempt: nat :: FreeAt(app, held, hash, name, attempt)
  }

  ghost predicate FreeAt(app: string, held: set<string>, hash: Hash, name: string, attempt: nat) {
    && name == Derived(app, attempt, hash) && name !in held
    && forall i: nat | i < attempt :: Derived(app, i, hash) in held
  }

  lemma FirstFreeIsOne(app: string, held: set<string>, hash: Hash, a: string, b: string)
    requires FirstFree(app, held, hash, a) && FirstFree(app, held, hash, b)
    ensures a == b
  {
    var i: nat :| FreeAt(app, held, hash, a, i);
    var j: nat :| FreeAt(app, held, hash, b, j);
    assert i == j;
  }

  lemma AttemptsPart(app: string, hash: Hash, i: nat, j: nat)
    requires (0 < i && 0 < j) || !OwnLabel(app)
    ensures Derived(app, i, hash) == Derived(app, j, hash) ==> hash(app, i) == hash(app, j)
  {
    var front := Front(Base(app)) + "-";
    assert hash(app, i) == (front + hash(app, i))[|front|..];
    assert hash(app, j) == (front + hash(app, j))[|front|..];
  }

  lemma LaterAttemptsPart(app: string, hash: Hash, most: nat, i: nat, j: nat)
    requires DistinctSuffixes(hash, app, most) && 0 < i < j < most
    ensures Derived(app, i, hash) != Derived(app, j, hash)
  {
    assert Differ(hash, app, i, j);
    AttemptsPart(app, hash, i, j);
  }

  /** Different things, all in one set, are no more than it holds. */
  lemma {:induction false} Pigeonhole<T>(things: seq<T>, held: set<T>)
    requires forall i, j | 0 <= i < j < |things| :: things[i] != things[j]
    requires forall thing <- things :: thing in held
    ensures |things| <= |held|
  {
    if things != [] {
      var rest := things[1..];
      forall thing <- rest ensures thing in held - {things[0]} {
        assert thing in things;
      }
      Pigeonhole(rest, held - {things[0]});
    }
  }

  /** With every try so far held, it took at most one more than the held: the first may repeat. */
  lemma TriesBound<T>(tries: seq<T>, held: set<T>)
    requires forall i, j | 0 < i < j < |tries| :: tries[i] != tries[j]
    requires forall i | 0 <= i < |tries| :: tries[i] in held
    ensures |tries| <= |held| + 1
  {
    if tries != [] {
      Pigeonhole(tries[1..], held);
    }
  }

  /** `(0..).map(derive).find(..)`: the first that is not held. */
  method FindFree<T(==)>(derive: nat -> T, held: set<T>) returns (name: T, ghost attempt: nat)
    requires exists some: nat :: derive(some) !in held
    ensures name == derive(attempt) && name !in held
    ensures forall i: nat | i < attempt :: derive(i) in held
  {
    ghost var some: nat :| derive(some) !in held;
    var next: nat := 0;
    while derive(next) in held
      invariant next <= some
      invariant forall i: nat | i < next :: derive(i) in held
      decreases some - next
    {
      next := next + 1;
    }
    name := derive(next);
    attempt := next;
  }

  /** Some derived label is free. */
  ghost predicate SomeFree(app: string, held: set<string>, hash: Hash) {
    exists attempt: nat :: Derived(app, attempt, hash) !in held
  }

  /** The name has more derived labels than `n`: no `n` of them hold it up. */
  ghost predicate MoreLabelsThan(hash: Hash, app: string, n: nat) {
    forall held: set<string> :: |held| <= n ==> SomeFree(app, held, hash)
  }

  /** The search stops, at the first derived label nobody holds. */
  method FreeLabel(app: string, held: set<string>, hash: Hash) returns (name: string, ghost attempt: nat)
    requires SomeFree(app, held, hash)
    ensures name !in held
    ensures FreeAt(app, held, hash, name, attempt)
  {
    var derive := (i: nat) => Derived(app, i, hash);
    ghost var some: nat :| Derived(app, some, hash) !in held;
    assert derive(some) !in held;
    name, attempt := FindFree(derive, held);
    forall i: nat | i < attempt ensures Derived(app, i, hash) in held {
      assert derive(i) in held;
    }
  }

  lemma Tried(app: string, hash: Hash, most: nat) returns (tries: seq<string>)
    requires DistinctSuffixes(hash, app, most)
    ensures |tries| == most
    ensures forall i | 0 <= i < most :: tries[i] == Derived(app, i, hash)
    ensures forall i, j | 0 < i < j < most :: tries[i] != tries[j]
  {
    tries := seq(most, i requires 0 <= i < most => Derived(app, i, hash));
    forall i, j | 0 < i < j < most ensures tries[i] != tries[j] {
      LaterAttemptsPart(app, hash, most, i, j);
    }
  }

  /** With suffixes that differ over the first `|held| + 2` attempts it stops within those. */
  lemma StopsWithin(app: string, held: set<string>, hash: Hash, name: string, attempt: nat)
    requires DistinctSuffixes(hash, app, |held| + 2) && FreeAt(app, held, hash, name, attempt)
    ensures attempt < |held| + 2
  {
    var tries := Tried(app, hash, |held| + 2);
    if attempt >= |held| + 2 {
      forall i | 0 <= i < |tries| ensures tries[i] in held {
        assert Derived(app, i, hash) in held;
      }
      TriesBound(tries, held);
    }
  }

  /** And as many labels as suffixes that differ: the search needs no more than that to stop. */
  lemma DistinctSuffixesGiveMore(hash: Hash, app: string, n: nat)
    requires DistinctSuffixes(hash, app, n + 2)
    ensures MoreLabelsThan(hash, app, n)
  {
    var tries := Tried(app, hash, n + 2);
    forall held: set<string> | |held| <= n ensures SomeFree(app, held, hash) {
      if forall i | 0 <= i < |tries| :: tries[i] in held {
        TriesBound(tries, held);
      } else {
        var i :| 0 <= i < |tries| && tries[i] !in held;
        assert Derived(app, i, hash) !in held;
      }
    }
  }
}
