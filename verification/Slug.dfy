/** Which names and paths the platform accepts (src/content/slug.rs). */
module Slug {
  import opened Text

  predicate SegmentChar(c: char) {
    IsAlphanumeric(c) || c == '-' || c == '_'
  }

  predicate ValidSegment(s: string) {
    s != "" && forall c <- s :: SegmentChar(c)
  }

  predicate ValidAssetSegment(s: string) {
    && s != ""
    && s[0] != '.'
    && forall c <- s :: SegmentChar(c) || c == '.'
  }

  predicate ValidAssetPath(s: string) {
    s != "" && forall part <- Split(s, '/') :: ValidAssetSegment(part)
  }

  const MAX_KEY_LEN := 900
  const MAX_SEGMENT_LEN := 255

  /** Whether a key may name a published file (src/content/files/mod.rs). */
  predicate ValidKey(key: string) {
    && |key| <= MAX_KEY_LEN
    && ValidAssetPath(key)
    && forall part <- Split(key, '/') :: |part| <= MAX_SEGMENT_LEN
  }

  /** A letter, a digit or one of `-`, `_` and `.`. */
  predicate FileChar(c: char) {
    'a' <= c <= 'z' || 'A' <= c <= 'Z' || '0' <= c <= '9' || c == '-' || c == '_' || c == '.'
  }

  /** Every slash is followed by a character of a name, not by a dot. */
  predicate SlashesLeadOn(s: string) {
    forall i | 0 <= i < |s| :: FileChar(s[i]) || (s[i] == '/' && i + 1 < |s| && s[i + 1] != '/' && s[i + 1] != '.')
  }

  /** Every part is a name but the first, which may be empty or begin with a dot. */
  predicate RestAreNames(parts: seq<string>)
    requires parts != []
  {
    && (forall i | 0 < i < |parts| :: ValidAssetSegment(parts[i]))
    && forall i | 0 <= i < |parts[0]| :: FileChar(parts[0][i])
  }

  lemma {:induction false} PartsAreNames(s: string)
    ensures RestAreNames(Split(s, '/')) <==> SlashesLeadOn(s)
  {
    if s != "" {
      var rest := Split(s[1..], '/');
      PartsAreNames(s[1..]);
      FirstPart(s[1..]);
      assert s == [s[0]] + s[1..];
      assert SlashesLeadOn(s) <==>
             SlashesLeadOn(s[1..]) && (FileChar(s[0]) || (s[0] == '/' && |s| > 1 && s[1] != '/' && s[1] != '.'));
      if s[0] == '/' {
        OneNameMore(rest);
        NameChars(rest[0]);
      } else {
        OneCharMore(s[0], rest);
      }
    }
  }

  lemma NameChars(part: string)
    ensures ValidAssetSegment(part) <==> part != "" && part[0] != '.' && forall i | 0 <= i < |part| :: FileChar(part[i])
  {
    if ValidAssetSegment(part) {
      forall i | 0 <= i < |part| ensures FileChar(part[i]) {
        assert part[i] in part;
      }
    }
    if forall i | 0 <= i < |part| :: FileChar(part[i]) {
      forall c <- part ensures SegmentChar(c) || c == '.' {
        var i :| 0 <= i < |part| && part[i] == c;
      }
    }
  }

  lemma OneNameMore(rest: seq<string>)
    requires rest != []
    ensures RestAreNames([""] + rest) <==> forall i | 0 <= i < |rest| :: ValidAssetSegment(rest[i])
  {
    var parts := [""] + rest;
    if RestAreNames(parts) {
      forall i | 0 <= i < |rest| ensures ValidAssetSegment(rest[i]) {
        assert parts[i + 1] == rest[i];
      }
    }
  }

  lemma OneCharMore(c: char, rest: seq<string>)
    requires rest != []
    ensures RestAreNames([[c] + rest[0]] + rest[1..]) <==> RestAreNames(rest) && FileChar(c)
  {
    var first, parts := [c] + rest[0], [[c] + rest[0]] + rest[1..];
    assert forall i | 0 < i < |rest| :: parts[i] == rest[i];
    if RestAreNames(parts) {
      assert first[0] == c;
      forall i | 0 <= i < |rest[0]| ensures FileChar(rest[0][i]) {
        assert first[i + 1] == rest[0][i];
      }
    }
  }

  lemma FirstPart(s: string)
    ensures Split(s, '/')[0] == "" <==> s == "" || s[0] == '/'
    ensures Split(s, '/')[0] != "" ==> Split(s, '/')[0][0] == s[0]
  {
  }

  /**
   Which paths are accepted, character by character: letters, digits, `-`, `_`,
   `.` and single slashes in between, and no dot at the beginning of a name.
   */
  lemma AcceptedPathsAre(s: string)
    ensures ValidAssetPath(s) <==> s != "" && s[0] != '/' && s[0] != '.' && SlashesLeadOn(s)
  {
    var parts := Split(s, '/');
    PartsAreNames(s);
    FirstPart(s);
    NameChars(parts[0]);
    assert (forall part <- parts :: ValidAssetSegment(part)) <==>
           ValidAssetSegment(parts[0]) && forall i | 0 < i < |parts| :: ValidAssetSegment(parts[i]);
  }

  /** A stretch of the text with no slash in it. */
  predicate IsPiece(s: string, i: int, j: int) {
    0 <= i <= j <= |s| && forall k | i <= k < j :: s[k] != '/'
  }

  lemma PiecesOfBoth(first: string, rest: string, i: int, j: int)
    requires IsPiece(first, 0, |first|)
    ensures IsPiece(first + "/" + rest, i, j) <==> IsPiece(first, i, j) || IsPiece(rest, i - |first| - 1, j - |first| - 1)
  {
    var s, n := first + "/" + rest, |first| + 1;
    assert forall k | 0 <= k < |first| :: s[k] == first[k];
    assert forall k | 0 <= k < |rest| :: s[k + n] == rest[k];
    if IsPiece(s, i, j) && i >= n {
      assert forall k | i - n <= k < j - n :: rest[k] == s[k + n];
    }
    if IsPiece(s, i, j) && i < n {
      assert s[|first|] == '/';
    }
    if IsPiece(rest, i - n, j - n) {
      assert forall k | i <= k < j :: s[k] == rest[k - n];
    }
  }

  lemma {:induction false} PiecesAreShort(s: string, n: nat)
    ensures (forall part <- Split(s, '/') :: |part| <= n) <==> forall i, j | IsPiece(s, i, j) :: j - i <= n
    decreases |s|
  {
    var first := Split(s, '/')[0];
    assert first in Split(s, '/');
    JoinSplit(s, '/');
    if |Split(s, '/')| == 1 {
      assert Split(s, '/') == [s] && IsPiece(s, 0, |s|);
    } else {
      var rest := Join(Split(s, '/')[1..], "/");
      assert s == first + "/" + rest;
      SplitFirst(first, '/', rest);
      PiecesAreShort(rest, n);
      forall i, j ensures IsPiece(s, i, j) <==> IsPiece(first, i, j) || IsPiece(rest, i - |first| - 1, j - |first| - 1) {
        PiecesOfBoth(first, rest, i, j);
      }
      forall i, j | IsPiece(rest, i, j) ensures IsPiece(s, i + |first| + 1, j + |first| + 1) {
        PiecesOfBoth(first, rest, i + |first| + 1, j + |first| + 1);
      }
      assert IsPiece(first, 0, |first|);
    }
  }

  /** Which keys a store keeps: accepted paths of up to 900 characters, with no more than 255 between slashes. */
  lemma KeysAre(key: string)
    ensures ValidKey(key) <==> ValidAssetPath(key) && |key| <= 900 && forall i, j | IsPiece(key, i, j) :: j - i <= 255
  {
    PiecesAreShort(key, 255);
  }

  /** No part of an accepted path is `.` or `..`, so it cannot climb. */
  lemma AssetPathsNeverClimb(s: string)
    requires ValidAssetPath(s)
    ensures "." !in Split(s, '/') && ".." !in Split(s, '/') && s[0] != '/'
  {
    if s[0] == '/' {
      assert s == "" + "/" + s[1..];
      SplitFirst("", '/', s[1..]);
    }
    assert Split(s, '/')[0] in Split(s, '/');
  }

  /** What is left of an accepted path below its top directory is accepted. */
  lemma AssetPathBelow(top: string, rest: string)
    requires '/' !in top
    requires ValidAssetPath(top + "/" + rest)
    ensures ValidAssetPath(rest)
  {
    SplitFirst(top, '/', rest);
    var whole := Split(top + "/" + rest, '/');
    assert forall part <- Split(rest, '/') :: part in whole;
    assert rest == "" ==> "" in Split(rest, '/');
  }
}
