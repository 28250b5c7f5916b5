/**
 The `Cookie` header an app is given, and how a cookie is read from one
 (src/accounts/users.rs): a filter and a parser that take the header apart on
 their own and must agree.
 */
module Cookies {
  import opened Wrappers
  import opened Text

  function Drop(s: string, n: nat): string {
    if n <= |s| then s[n..] else ""
  }

  /** A name the platform sets itself, whatever prefix tells the browser how to keep it. */
  predicate IsPlatformCookie(name: string) {
    var plain := Lower(Trim(name));
    var bare :=
      if StartsWith(plain, "__host-") then Drop(plain, 7)
      else if StartsWith(plain, "__secure-") then Drop(plain, 9)
      else plain;
    StartsWith(bare, "ts_")
  }

  /** The parts between semicolons, trimmed. */
  function Pairs(header: string): (pairs: seq<string>)
    ensures forall pair <- pairs :: Trimmed(pair) && ';' !in pair
  {
    var parts := Split(header, ';');
    seq(|parts|, i requires 0 <= i < |parts| => Trim(parts[i]))
  }

  /** What is ahead of the first `=`, or all of it. */
  function NameOf(pair: string): string {
    Split(pair, '=')[0]
  }

  predicate Stays(pair: string) {
    pair != "" && !IsPlatformCookie(NameOf(pair))
  }

  function Kept(pairs: seq<string>): (kept: seq<string>)
    ensures forall pair <- kept :: pair in pairs && Stays(pair)
    ensures (forall pair <- pairs :: Stays(pair)) ==> kept == pairs
  {
    if pairs == [] then [] else (if Stays(pairs[0]) then [pairs[0]] else []) + Kept(pairs[1..])
  }

  function WithoutPlatformCookies(header: string): Option<string> {
    var kept := Kept(Pairs(header));
    if kept == [] then None else Some(Join(kept, "; "))
  }

  /** `pair.split_once('=')`. */
  function SplitOnce(pair: string): Option<(string, string)> {
    var name := NameOf(pair);
    if |Split(pair, '=')| > 1 then Some((name, Drop(pair, |name| + 1))) else None
  }

  /** The value of the first pair of that name. */
  function FirstValue(pairs: seq<string>, name: string): Option<string> {
    if pairs == [] then None
    else match SplitOnce(pairs[0])
      case Some((cookie, value)) => if cookie == name then Some(value) else FirstValue(pairs[1..], name)
      case None => FirstValue(pairs[1..], name)
  }

  function CookieValue(header: Option<string>, name: string): Option<string> {
    match header
    case None => None
    case Some(text) => FirstValue(Pairs(text), name)
  }

  // --- what the names and values are ---

  /** The platform's names, in any case: `ts_` at the beginning, behind either of the two prefixes browsers know or none. */
  predicate NamedForPlatform(name: string) {
    var plain := Lower(Trim(name));
    StartsWith(plain, "ts_") || StartsWith(plain, "__host-ts_") || StartsWith(plain, "__secure-ts_")
  }

  lemma Behind(s: string, a: string, b: string)
    ensures StartsWith(s, a + b) <==> StartsWith(s, a) && StartsWith(Drop(s, |a|), b)
  {
    if StartsWith(s, a + b) {
      assert (a + b)[..|a|] == a == s[..|a|];
      assert (a + b)[|a|..] == b == s[|a|..|a| + |b|];
    }
    if StartsWith(s, a) && StartsWith(Drop(s, |a|), b) {
      assert s == a + s[|a|..];
    }
  }

  lemma PlatformNames(name: string)
    ensures IsPlatformCookie(name) <==> NamedForPlatform(name)
  {
    var plain := Lower(Trim(name));
    assert "__host-" + "ts_" == "__host-ts_" && "__secure-" + "ts_" == "__secure-ts_";
    Behind(plain, "__host-", "ts_");
    Behind(plain, "__secure-", "ts_");
    Starts(plain);
  }

  /** The beginnings exclude each other. */
  lemma Starts(plain: string)
    ensures StartsWith(plain, "__host-") ==> !StartsWith(plain, "ts_") && !StartsWith(plain, "__secure-")
    ensures StartsWith(plain, "__secure-") ==> !StartsWith(plain, "ts_")
  {
    if StartsWith(plain, "__host-") {
      assert plain[0] == "__host-"[0] && plain[2] == "__host-"[2];
    }
    if StartsWith(plain, "__secure-") {
      assert plain[0] == "__secure-"[0] && plain[2] == "__secure-"[2];
    }
    if StartsWith(plain, "ts_") {
      assert plain[0] == "ts_"[0];
    }
  }

  /** The pair gives the cookie this value: its name, the first `=`, and all that follows. */
  predicate Gives(pair: string, name: string, value: string) {
    '=' !in name && pair == name + "=" + value
  }

  lemma SplitOnceGives(pair: string, name: string, value: string)
    ensures SplitOnce(pair) == Some((name, value)) <==> Gives(pair, name, value)
  {
    var parts := Split(pair, '=');
    JoinSplit(pair, '=');
    if |parts| > 1 {
      assert pair == parts[0] + "=" + Join(parts[1..], "=");
      assert Drop(pair, |parts[0]| + 1) == Join(parts[1..], "=");
    }
    if Gives(pair, name, value) {
      SplitFirst(name, '=', value);
      assert Drop(pair, |name| + 1) == value;
    }
  }

  ghost predicate FirstGiving(pairs: seq<string>, name: string, value: string, i: int) {
    0 <= i < |pairs| && Gives(pairs[i], name, value) && forall j, other | 0 <= j < i :: !Gives(pairs[j], name, other)
  }

  lemma OneInFront(pairs: seq<string>, name: string, value: string, i: int)
    requires pairs != [] && forall other :: !Gives(pairs[0], name, other)
    ensures FirstGiving(pairs[1..], name, value, i) <==> FirstGiving(pairs, name, value, i + 1)
  {
    assert forall j | 0 <= j < |pairs[1..]| :: pairs[1..][j] == pairs[j + 1];
    if FirstGiving(pairs[1..], name, value, i) {
      forall j, other | 0 <= j < i + 1 ensures !Gives(pairs[j], name, other) {
        assert j > 0 ==> pairs[j] == pairs[1..][j - 1];
      }
    }
    if FirstGiving(pairs, name, value, i + 1) {
      assert i >= 0;
      forall j, other | 0 <= j < i ensures !Gives(pairs[1..][j], name, other) {
        assert pairs[1..][j] == pairs[j + 1];
      }
    }
  }

  /** What is read is the value of the first pair that gives one, and nothing where none does. */
  lemma {:induction false} FirstValueIs(pairs: seq<string>, name: string, value: string)
    ensures FirstValue(pairs, name) == Some(value) <==> exists i :: FirstGiving(pairs, name, value, i)
  {
    if pairs != [] {
      forall other ensures SplitOnce(pairs[0]) == Some((name, other)) <==> Gives(pairs[0], name, other) {
        SplitOnceGives(pairs[0], name, other);
      }
      if got :| Gives(pairs[0], name, got) {
        assert value == got ==> FirstGiving(pairs, name, value, 0);
      } else {
        FirstValueIs(pairs[1..], name, value);
        forall i ensures FirstGiving(pairs[1..], name, value, i) <==> FirstGiving(pairs, name, value, i + 1) {
          OneInFront(pairs, name, value, i);
        }
        if i :| FirstGiving(pairs, name, value, i) {
          OneInFront(pairs, name, value, i - 1);
          assert FirstGiving(pairs[1..], name, value, i - 1);
        }
      }
    }
  }

  lemma {:induction false} KeptAgrees(pairs: seq<string>, name: string)
    ensures FirstValue(Kept(pairs), name) == if IsPlatformCookie(name) then None else FirstValue(pairs, name)
  {
    if pairs != [] {
      KeptAgrees(pairs[1..], name);
      if Stays(pairs[0]) {
        assert Kept(pairs)[1..] == Kept(pairs[1..]);
      } else {
        assert Kept(pairs) == Kept(pairs[1..]);
        assert pairs[0] == "" ==> Split(pairs[0], '=') == [""];
      }
    }
  }

  /** Nothing at all, or a pair whose name, up to the first `=` if it has one, is one of the platform's. */
  ghost predicate GoesAway(pair: string) {
    pair == "" || (exists name :: NamedForPlatform(name) && (Names(pair, name) || exists value :: Gives(pair, name, value)))
  }

  predicate Names(pair: string, name: string) {
    '=' !in pair && pair == name
  }

  lemma StaysExactly(pair: string)
    ensures Stays(pair) <==> !GoesAway(pair)
  {
    var own := NameOf(pair);
    var parts := Split(pair, '=');
    JoinSplit(pair, '=');
    PlatformNames(own);
    if |parts| > 1 {
      SplitOnceGives(pair, own, Drop(pair, |own| + 1));
    } else {
      assert Names(pair, own);
    }
    forall name, value ensures Gives(pair, name, value) ==> name == own {
      SplitOnceGives(pair, name, value);
    }
    if '=' !in pair {
      SplitNone(pair, '=');
    }
  }

  lemma {:induction false} KeptOfBoth(a: seq<string>, b: seq<string>)
    ensures Kept(a + b) == Kept(a) + Kept(b)
  {
    if a == [] {
      assert a + b == b;
    } else {
      assert (a + b)[1..] == a[1..] + b;
      KeptOfBoth(a[1..], b);
    }
  }

  /** What the filter keeps: every pair but those, in their order, and no header where nothing is left. */
  lemma FilterKeeps(a: seq<string>, pair: string, b: seq<string>, header: string)
    ensures Kept(a + [pair] + b) == Kept(a) + (if GoesAway(pair) then [] else [pair]) + Kept(b)
    ensures Kept([]) == []
    ensures WithoutPlatformCookies(header) == None <==> forall kept <- Pairs(header) :: GoesAway(kept)
  {
    KeptOfBoth(a + [pair], b);
    KeptOfBoth(a, [pair]);
    StaysExactly(pair);
    assert Kept([pair]) == if Stays(pair) then [pair] + Kept([]) else Kept([]);
    NothingKept(Pairs(header));
    forall kept ensures Stays(kept) <==> !GoesAway(kept) {
      StaysExactly(kept);
    }
  }

  lemma {:induction false} NothingKept(pairs: seq<string>)
    ensures Kept(pairs) == [] <==> forall pair <- pairs :: !Stays(pair)
  {
    if pairs != [] {
      NothingKept(pairs[1..]);
    }
  }

  /** The parts of a joined header, each but the first behind a space. */
  lemma {:induction false} SplitJoined(lead: string, parts: seq<string>)
    requires parts != [] && ';' !in lead && forall part <- parts :: ';' !in part
    ensures var split := Split(lead + Join(parts, "; "), ';');
            && |split| == |parts|
            && split[0] == lead + parts[0]
            && forall i | 0 < i < |parts| :: split[i] == " " + parts[i]
    decreases |parts|
  {
    var first := lead + parts[0];
    if |parts| == 1 {
      SplitNone(first, ';');
    } else {
      var rest := Join(parts[1..], "; ");
      assert lead + Join(parts, "; ") == first + [';'] + (" " + rest);
      SplitFirst(first, ';', " " + rest);
      SplitJoined(" ", parts[1..]);
    }
  }

  /** Pairs joined come apart into the same pairs. */
  lemma PairsOfJoined(pairs: seq<string>)
    requires pairs != [] && forall pair <- pairs :: Trimmed(pair) && ';' !in pair
    ensures Pairs(Join(pairs, "; ")) == pairs
  {
    SplitJoined("", pairs);
    assert "" + Join(pairs, "; ") == Join(pairs, "; ") && "" + pairs[0] == pairs[0];
    forall i | 0 < i < |pairs| ensures Trim(" " + pairs[i]) == pairs[i] {
      assert pairs[i] in pairs;
      assert (" " + pairs[i])[1..] == pairs[i];
    }
    assert pairs[0] in pairs;
  }

  lemma PairsOfFiltered(header: string)
    requires WithoutPlatformCookies(header).Some?
    ensures Pairs(WithoutPlatformCookies(header).value) == Kept(Pairs(header))
  {
    PairsOfJoined(Kept(Pairs(header)));
  }

  /**
   For every header and name, the filtered header has no value for a platform
   cookie, and otherwise the value the whole header has, first match included.
   */
  lemma FilterAgreesWithParser(header: string, name: string)
    ensures CookieValue(WithoutPlatformCookies(header), name) ==
            if NamedForPlatform(name) then None else CookieValue(Some(header), name)
  {
    PlatformNames(name);
    KeptAgrees(Pairs(header), name);
    if WithoutPlatformCookies(header).Some? {
      PairsOfFiltered(header);
    }
  }

  /** Filtering again changes nothing. */
  lemma FilteringTwice(header: string)
    requires WithoutPlatformCookies(header).Some?
    ensures WithoutPlatformCookies(WithoutPlatformCookies(header).value) == WithoutPlatformCookies(header)
  {
    PairsOfFiltered(header);
  }
}
